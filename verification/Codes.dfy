/** Result codes of the unified interface (src/unizip_error_code.h) and of the zlib flush argument. */
module Codes {
  const UNIZIP_OK := 0
  const UNIZIP_STREAM_END := 1
  const UNIZIP_ERRNO := -1
  const UNIZIP_STREAM_ERROR := -2
  const UNIZIP_DATA_ERROR := -3
  const UNIZIP_MEM_ERROR := -4

  const Z_NO_FLUSH := 0
  const Z_FINISH := 4
}
