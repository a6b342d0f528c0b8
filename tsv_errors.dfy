/** `PimdbTsvError`, the failure of a read pass over a dataset file, and the
    location text that names a file and a row. */
module TsvErrors {
  import opened Strings
  import opened PosixPath

  /** A parse failure: the file, the number of data rows read before the
      failure, and the message shown to the user. */
  datatype TsvError = TsvError(path: string, rowNumber: nat, message: string)

  /** The error for a failure in `path` after `rowNumber` rows: it keeps
      both, and its message is `TsvErrorMessage` of the file's base name. */
  function NewTsvError(path: string, rowNumber: nat, baseMessage: string): (e: TsvError)
    ensures e.path == path && e.rowNumber == rowNumber
    ensures e.message == TsvErrorMessage(BaseName(path), rowNumber, baseMessage)
  {
    TsvError(path, rowNumber, TsvErrorMessage(BaseName(path), rowNumber, baseMessage))
  }

  /** The message for a file whose base name is `name`: the name, ` (`, the
      row number, `: ` and the underlying message. The parenthesis it opens
      is never closed. */
  function TsvErrorMessage(name: string, rowNumber: nat, baseMessage: string): (m: string)
    ensures var d := NatToString(rowNumber);
      && |m| == |name| + 2 + |d| + 2 + |baseMessage|
      && m[..|name|] == name
      && m[|name|..|name| + 2] == " ("
      && m[|name| + 2..|name| + 2 + |d|] == d
      && m[|name| + 2 + |d|..|name| + 4 + |d|] == ": "
      && m[|name| + 4 + |d|..] == baseMessage
  {
    var d := NatToString(rowNumber);
    var m := name + " (" + d + ": " + baseMessage;
    assert m == name + (" (" + (d + (": " + baseMessage)));
    m
  }

  /** With no parentheses in the file name and the underlying message, the
      message holds one more `(` than `)`. */
  lemma TsvErrorMessageUnbalanced(path: string, rowNumber: nat, baseMessage: string)
    requires '(' !in BaseName(path) && ')' !in BaseName(path)
    requires '(' !in baseMessage && ')' !in baseMessage
    ensures var m := NewTsvError(path, rowNumber, baseMessage).message;
      Count('(', m) == Count(')', m) + 1
  {
    var b, digits := BaseName(path), NatToString(rowNumber);
    CountMessageParts('(', b, digits, baseMessage);
    CountMessageParts(')', b, digits, baseMessage);
  }

  /** Counts a parenthesis in `b (digits: message` when `b` and `message` have none. */
  lemma CountMessageParts(c: char, b: string, digits: string, message: string)
    requires c == '(' || c == ')'
    requires c !in b && c !in message && AllDigits(digits)
    ensures Count(c, b + " (" + digits + ": " + message) == if c == '(' then 1 else 0
  {
    NoParenthesesInDigits(digits, c);
    CountAbsent(c, b);
    CountAbsent(c, digits);
    CountAbsent(c, message);
    CountAbsent(c, ": ");
    CountConcat(c, b, " (");
    CountConcat(c, b + " (", digits);
    CountConcat(c, b + " (" + digits, ": ");
    CountConcat(c, b + " (" + digits + ": ", message);
    assert " ("[..1] == " ";
    CountAbsent(c, " ");
  }

  lemma NoParenthesesInDigits(digits: string, c: char)
    requires AllDigits(digits) && (c == '(' || c == ')')
    ensures c !in digits
  {
  }

  /** The reader's location for a file whose base name is `name`: the name,
      ` (`, the current row number and `)`. */
  function LocationText(name: string, rowNumber: nat): (r: string)
    ensures var d := NatToString(rowNumber);
      && |r| == |name| + 2 + |d| + 1
      && r[..|name|] == name
      && r[|name|..|name| + 2] == " ("
      && r[|name| + 2..|r| - 1] == d
      && r[|r| - 1] == ')'
  {
    var d := NatToString(rowNumber);
    LocationParts(name, d);
    name + " (" + d + ")"
  }

  /** Where each part of `name (d)` lies. */
  lemma LocationParts(name: string, d: string)
    ensures var s := name + " (" + d + ")";
      && |s| == |name| + 2 + |d| + 1
      && s[..|name|] == name
      && s[|name|..|name| + 2] == " ("
      && s[|name| + 2..|s| - 1] == d
      && s[|s| - 1] == ')'
  {
    var s := name + " (" + d + ")";
    assert s == name + (" (" + (d + ")"));
  }

  /** The row number can be read back from the location text: the text
      between ` (` and the closing `)` is its decimal digits. */
  lemma LocationRowNumber(name: string, rowNumber: nat)
    ensures var r := LocationText(name, rowNumber);
      var digits := r[|name| + 2..|r| - 1];
      AllDigits(digits) && ParseDigits(digits) == rowNumber
  {
    ParseNatToString(rowNumber);
  }
}
