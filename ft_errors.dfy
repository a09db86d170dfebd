/**
 * `get_ft_error_string` (src/entry_backend/harfbuzz.c): FreeType's table of
 * error codes and messages, searched front to back. The table's rows come
 * from FreeType's `fterrors.h`, which is not part of this model, so the table
 * is a parameter; it closes with the row `{ 0, NULL }`, which is why a row's
 * message may be absent.
 */
module FtErrors {
  import opened Base

  /** One row of the table: an error code and its message (None for the closing NULL). */
  datatype ErrorRow = ErrorRow(code: int, message: Option<string>)

  const UnknownError: string := "Unknown FT error"

  /** The position of the first row with the given code, or the table's length when there is none. */
  function FirstRow(table: seq<ErrorRow>, code: int): (k: nat)
    ensures k <= |table|
    ensures k < |table| ==> table[k].code == code
    ensures forall j | 0 <= j < k :: table[j].code != code
  {
    if table == [] then 0
    else if table[0].code == code then 0
    else 1 + FirstRow(table[1..], code)
  }

  /** The message the first row with the code carries, or the fixed fallback. */
  function ErrorString(table: seq<ErrorRow>, code: int): Option<string>
  {
    var k := FirstRow(table, code);
    if k < |table| then table[k].message else Some(UnknownError)
  }

  method GetFtErrorString(table: seq<ErrorRow>, code: int) returns (msg: Option<string>)
    ensures msg == ErrorString(table, code)
  {
    for i := 0 to |table|
      invariant forall j | 0 <= j < i :: table[j].code != code
    {
      if table[i].code == code {
        return table[i].message;
      }
    }
    return Some(UnknownError);
  }

  /**
   * FreeType's table opens with code 0 ("no error") and only its closing row
   * has no message, with code 0 as well; so the closing row is never reached
   * by a matching search and every code gets a message.
   */
  lemma NeverNull(table: seq<ErrorRow>, code: int)
    requires table != [] && table[0].code == 0 && table[0].message.Some?
    requires forall j | 0 <= j < |table| && table[j].message.None? :: table[j].code == 0
    ensures ErrorString(table, code).Some?
  {
  }
}
