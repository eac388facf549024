/** The exceptions alphanum_code/core.py raises, one constructor each. */
module Errors {

  datatype Error =
      /** ValueError: init_code does not have code_size characters (core.py:45-46). */
    | InitCodeSizeMismatch
      /** ValueError: the last stored code does not have code_size characters (core.py:53-55). */
    | StoredCodeSizeMismatch
      /** TypeError: `len` applied to the stored record object itself (core.py:54 as written). */
    | RecordHasNoLength
      /** KeyError: a character of the code is not in the alphabet (core.py:66). */
    | InvalidCharacter
      /** IndexError: the code is empty, so there is no digit to increment (core.py:67). */
    | EmptyCode
      /** StopIteration("Last code reached"): the carry leaves the most significant digit (core.py:69-71). */
    | LastCodeReached
      /** IntegrityError: the store's unique constraint on `code` rejects the insert (core.py:112). */
    | DuplicateCode
}
