/** The result codes of include/openenclave/bits/result.h that the model tells apart. */
module Results {
  datatype OeResult =
    | OK
    | FAILURE
    | UNEXPECTED
    | INVALID_PARAMETER
    | BUFFER_TOO_SMALL
    | NOT_FOUND
    | CONSTRAINT_FAILED
    | INTEGER_OVERFLOW
    | PLATFORM_ERROR
    | VERIFY_FAILED
    | INVALID_UTC_DATE_TIME
    | INVALID_SGX_CERTIFICATE_EXTENSIONS
    | JSON_INFO_PARSE_ERROR
    | TCB_LEVEL_INVALID
    | INVALID_REVOCATION_INFO
    | INVALID_QE_IDENTITY_INFO
    | VERIFY_FAILED_TO_FIND_VALIDITY_PERIOD
    | OTHER(code: nat)
}
