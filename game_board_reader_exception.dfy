/**
 * The reader's checked exception (src/gtf/puzzle/sudoku/io/GameBoardReaderException.java):
 * a base message with an optional row, column and offending token, and the
 * message text built from them.
 */
module GameBoardReaderExceptions {
  import opened Wrappers
  import opened JavaPlatform
  import opened SudokuCellAddresses

  /** The "not set" value of the row and column fields. */
  const VALUE_NOT_INITIALIZED: Int32 := -1

  /** The exception's fields; a null token is None. */
  datatype GameBoardReaderException = GameBoardReaderException(message: string, row: Int32, col: Int32, token: Option<string>)

  /** The one-argument constructor: row and column unset, no token. */
  function WithMessage(message: string): GameBoardReaderException
  {
    GameBoardReaderException(message, VALUE_NOT_INITIALIZED, VALUE_NOT_INITIALIZED, None)
  }

  /** The two-argument constructor: the one-argument one, then the row. */
  function WithRow(message: string, row: Int32): GameBoardReaderException
  {
    WithMessage(message).(row := row)
  }

  /** The three-argument constructor: the two-argument one, then the column. */
  function WithRowCol(message: string, row: Int32, col: Int32): GameBoardReaderException
  {
    WithRow(message, row).(col := col)
  }

  /** The four-argument constructor: the three-argument one, then the token. */
  function WithToken(message: string, row: Int32, col: Int32, token: string): GameBoardReaderException
  {
    WithRowCol(message, row, col).(token := Some(token))
  }

  /** Each constructor sets its own arguments and leaves the later fields at their defaults. */
  lemma ConstructorChain(message: string, row: Int32, col: Int32, token: string)
    ensures WithMessage(message) == GameBoardReaderException(message, -1, -1, None)
    ensures WithRow(message, row) == GameBoardReaderException(message, row, -1, None)
    ensures WithRowCol(message, row, col) == GameBoardReaderException(message, row, col, None)
    ensures WithToken(message, row, col, token) == GameBoardReaderException(message, row, col, Some(token))
  {
  }

  /** StringBuffer.append(String): a null string is appended as "null". */
  function JavaText(s: Option<string>): string
  {
    if s.Some? then s.value else "null"
  }

  /** The local buffer class getMessage builds its text in. */
  class Appender {
    var buf: string

    constructor ()
      ensures buf == ""
    {
      buf := "";
    }

    method Append(message: Option<string>)
      modifies this
      ensures buf == old(buf) + JavaText(message)
    {
      buf := buf + JavaText(message);
    }

    /** append(varName, varValue): "[name=value] ", the value by its toString, or null. */
    method AppendVar(varName: string, varValue: Option<string>)
      modifies this
      ensures buf == old(buf) + Section(varName, varValue)
    {
      Append(Some("["));
      Append(Some(varName));
      Append(Some("="));
      Append(varValue);
      Append(Some("] "));
    }

    function ToString(): string
      reads this
    {
      buf
    }
  }

  /** One "[name=value] " section. */
  function Section(name: string, value: Option<string>): string
  {
    "[" + name + "=" + JavaText(value) + "] "
  }

  /** A section that is written only when its field is set. */
  function Part(name: string, value: Option<string>): string
  {
    if value.Some? then Section(name, value) else ""
  }

  /** The row's text when it is set (Integer.toString). */
  function RowText(e: GameBoardReaderException): Option<string>
  {
    if e.row != VALUE_NOT_INITIALIZED then Some(IntToString(e.row)) else None
  }

  function ColText(e: GameBoardReaderException): Option<string>
  {
    if e.col != VALUE_NOT_INITIALIZED then Some(IntToString(e.col)) else None
  }

  /** What getMessage returns: the base message, ": ", then the row, column and token sections that are set, in that order. */
  function MessageText(e: GameBoardReaderException): string
  {
    e.message + ": " + Details(e)
  }

  /** getMessage, appending piece by piece to an Appender. */
  method GetMessage(e: GameBoardReaderException) returns (s: string)
    ensures s == MessageText(e)
  {
    var appender := new Appender();
    appender.Append(Some(e.message));
    appender.Append(Some(": "));
    ghost var head := appender.buf;
    if e.row != VALUE_NOT_INITIALIZED {
      appender.AppendVar("row", Some(IntToString(e.row)));
    }
    ghost var afterRow := appender.buf;
    assert afterRow == head + Part("row", RowText(e));
    if e.col != VALUE_NOT_INITIALIZED {
      appender.AppendVar("col", Some(IntToString(e.col)));
    }
    ghost var afterCol := appender.buf;
    assert afterCol == afterRow + Part("col", ColText(e));
    if e.token.Some? {
      appender.AppendVar("token", e.token);
    }
    assert appender.buf == afterCol + Part("token", e.token);
    s := appender.ToString();
    MessageAppended(e, head, afterRow, afterCol, s);
  }

  lemma MessageAppended(e: GameBoardReaderException, head: string, afterRow: string, afterCol: string, s: string)
    requires head == e.message + ": "
    requires afterRow == head + Part("row", RowText(e))
    requires afterCol == afterRow + Part("col", ColText(e))
    requires s == afterCol + Part("token", e.token)
    ensures s == MessageText(e)
  {
  }

  /** The message always starts with the base message and ": ". */
  lemma MessagePrefix(e: GameBoardReaderException)
    ensures |MessageText(e)| >= |e.message| + 2
    ensures MessageText(e)[..|e.message| + 2] == e.message + ": "
  {
  }

  /**
   * The row section is written exactly when the row is set, and likewise
   * the column and the token: the sections after ": " read "[row=", then
   * "[col=", then "[token=".
   */
  lemma SectionsPresent(e: GameBoardReaderException)
    ensures e.row != VALUE_NOT_INITIALIZED <==> StartsWith(Details(e), "[r")
    ensures e.row == VALUE_NOT_INITIALIZED ==> (e.col != VALUE_NOT_INITIALIZED <==> StartsWith(Details(e), "[c"))
    ensures e.row == VALUE_NOT_INITIALIZED && e.col == VALUE_NOT_INITIALIZED ==> (e.token.Some? <==> Details(e) != "")
  {
    var rest := Part("col", ColText(e)) + Part("token", e.token);
    PartPresent("row", RowText(e), rest);
    PartPresent("col", ColText(e), Part("token", e.token));
    PartPresent("token", e.token, "");
    assert Part("token", e.token) + "" == Part("token", e.token);
  }

  /** The text after the base message and ": ". */
  function Details(e: GameBoardReaderException): string
  {
    Part("row", RowText(e)) + (Part("col", ColText(e)) + Part("token", e.token))
  }

  predicate StartsWith(s: string, prefix: string)
  {
    |prefix| <= |s| && s[..|prefix|] == prefix
  }

  /**
   * Given its base message, the message text determines the exception:
   * row, column and token can all be read back from it.
   */
  lemma MessageDetermines(e1: GameBoardReaderException, e2: GameBoardReaderException)
    requires e1.message == e2.message && MessageText(e1) == MessageText(e2)
    ensures e1 == e2
  {
    var n := |e1.message| + 2;
    assert Details(e1) == MessageText(e1)[n..] && Details(e2) == MessageText(e2)[n..];
    var c1, c2 := Part("col", ColText(e1)), Part("col", ColText(e2));
    var t1, t2 := Part("token", e1.token), Part("token", e2.token);
    NoBracketInText(e1);
    NoBracketInText(e2);
    PeelPart("row", RowText(e1), c1 + t1, RowText(e2), c2 + t2);
    PeelPart("col", ColText(e1), t1, ColText(e2), t2);
    PartInjective("token", e1.token, e2.token);
    IntTextInjective(e1.row, e2.row);
    IntTextInjective(e1.col, e2.col);
  }

  lemma IntTextInjective(x: Int32, y: Int32)
    ensures IntToString(x) == IntToString(y) ==> x == y
  {
    ParseIntOfIntToString(x);
    ParseIntOfIntToString(y);
  }

  /** Integer.toString never produces a ']'. */
  lemma NoBracketInText(e: GameBoardReaderException)
    ensures RowText(e).Some? ==> ']' !in RowText(e).value
    ensures ColText(e).Some? ==> ']' !in ColText(e).value
  {
    IntToStringSymbols(e.row);
    IntToStringSymbols(e.col);
  }

  lemma IntToStringSymbols(x: int)
    ensures forall i :: 0 <= i < |IntToString(x)| ==> IsDigit(IntToString(x)[i]) || IntToString(x)[i] == '-'
  {
    if x < 0 {
      assert IntToString(x) == "-" + NatToString(-x);
    }
  }

  /** What may follow a section whose name starts with `first`: nothing, or another section. */
  predicate FollowsSection(rest: string, first: char)
  {
    rest == [] || (|rest| >= 2 && rest[0] == '[' && rest[1] != first)
  }

  /** A section is there exactly when the text starts with '[' and its name's first letter. */
  lemma PartPresent(name: string, value: Option<string>, rest: string)
    requires |name| > 0 && FollowsSection(rest, name[0])
    ensures value.Some? <==> StartsWith(Part(name, value) + rest, ['[', name[0]])
  {
    if value.Some? {
      assert (Part(name, value) + rest)[..2] == ['[', name[0]];
    } else {
      assert Part(name, value) + rest == rest;
    }
  }

  lemma PeelPart(name: string, v1: Option<string>, r1: string, v2: Option<string>, r2: string)
    requires |name| > 0 && FollowsSection(r1, name[0]) && FollowsSection(r2, name[0])
    requires v1.Some? ==> ']' !in v1.value
    requires v2.Some? ==> ']' !in v2.value
    requires Part(name, v1) + r1 == Part(name, v2) + r2
    ensures v1 == v2 && r1 == r2
  {
    PartPresent(name, v1, r1);
    PartPresent(name, v2, r2);
    if v1.Some? {
      SectionTail(name, v1.value, r1);
      SectionTail(name, v2.value, r2);
      CutAtSeparator(v1.value, " " + r1, v2.value, " " + r2, ']');
      assert r1 == (" " + r1)[1..] && r2 == (" " + r2)[1..];
    } else {
      assert Part(name, v1) + r1 == r1 && Part(name, v2) + r2 == r2;
    }
  }

  /** After "[name=", a section followed by `rest` reads: the value, ']', ' ', then `rest`. */
  lemma SectionTail(name: string, v: string, rest: string)
    ensures (Part(name, Some(v)) + rest)[|name| + 2..] == v + [']'] + (" " + rest)
  {
    var s := Part(name, Some(v)) + rest;
    assert s == ("[" + name + "=") + (v + [']'] + (" " + rest));
  }

  lemma PartInjective(name: string, v1: Option<string>, v2: Option<string>)
    requires |name| > 0 && Part(name, v1) == Part(name, v2)
    ensures v1 == v2
  {
    PartPresent(name, v1, "");
    PartPresent(name, v2, "");
    assert Part(name, v1) + "" == Part(name, v1) && Part(name, v2) + "" == Part(name, v2);
    if v1.Some? {
      var s := Part(name, v1);
      assert v1.value == s[|name| + 2..|s| - 2];
      assert v2.value == s[|name| + 2..|s| - 2];
    }
  }
}
