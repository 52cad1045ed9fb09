/**
 * The pieces of the Java platform that the modelled code leans on: its
 * unchecked exceptions, 32-bit ints, the truncating division operators,
 * Integer.toString / Integer.parseInt, String.trim, StringTokenizer with
 * its default delimiters, and splitting text into lines.
 */
module JavaPlatform {
  import opened Wrappers

  /** The unchecked exceptions the modelled code throws or lets escape. */
  datatype JavaException =
    | IllegalArgumentException(message: string)
    | IndexOutOfBoundsException(index: int, size: int)
    | ArithmeticException(message: string)
    | NullPointerException

  /**
   * The argument of an equals(Object) method: null, an instance of the
   * receiver's class, or an object of some other class.
   */
  datatype JavaObject<A> = NullReference | Instance(obj: A) | OtherClassInstance

  const INT_MIN: int := -0x8000_0000
  const INT_MAX: int := 0x7fff_ffff

  predicate IsInt32(x: int) { INT_MIN <= x <= INT_MAX }

  /** Java's `int`. */
  type Int32 = x: int | -0x8000_0000 <= x <= 0x7fff_ffff

  /** Two's-complement wrap-around of an exact result into a Java int. */
  function Wrap32(x: int): (r: int)
    ensures IsInt32(r)
    ensures (x - r) % 0x1_0000_0000 == 0
    ensures IsInt32(x) ==> r == x
  {
    var m := (x - INT_MIN) % 0x1_0000_0000;
    m + INT_MIN
  }

  function Abs(x: int): (r: int)
    ensures r >= 0
  {
    if x < 0 then -x else x
  }

  /** Java's `a / b`: the quotient truncated toward zero. */
  function JavaDiv(a: int, b: int): int
    requires b != 0
  {
    var q := Abs(a) / Abs(b);
    if (a < 0) == (b < 0) then q else -q
  }

  /**
   * Java's `a % b`: truncates toward zero, so a non-zero result takes the
   * sign of the dividend `a`, and `(a / b) * b + a % b == a`.
   */
  function JavaRem(a: int, b: int): (r: int)
    requires b != 0
    ensures a >= 0 ==> 0 <= r < Abs(b)
    ensures a <= 0 ==> -Abs(b) < r <= 0
    ensures JavaDiv(a, b) * b + r == a
  {
    var m := Abs(a) % Abs(b);
    var q := Abs(a) / Abs(b);
    assert Abs(a) == q * Abs(b) + m;
    if a >= 0 then
      assert JavaDiv(a, b) * b == q * Abs(b);
      m
    else
      assert JavaDiv(a, b) * b == -(q * Abs(b));
      -m
  }

  /** The 32 bits of a Java int, two's complement. */
  function ToBits(x: Int32): bv32
  {
    (if x < 0 then x + 0x1_0000_0000 else x) as bv32
  }

  function FromBits(b: bv32): Int32
  {
    var n := b as int;
    if n > INT_MAX then n - 0x1_0000_0000 else n
  }

  /** Java's `a ^ b` on ints. */
  function Xor32(a: Int32, b: Int32): Int32
  {
    FromBits(ToBits(a) ^ ToBits(b))
  }

  // ---------------------------------------------------------------- digits

  predicate IsDigit(ch: char) { '0' <= ch <= '9' }

  function DigitChar(d: nat): (ch: char)
    requires d < 10
    ensures IsDigit(ch)
  {
    ['0', '1', '2', '3', '4', '5', '6', '7', '8', '9'][d]
  }

  function DigitValue(ch: char): (d: nat)
    requires IsDigit(ch)
    ensures d < 10 && DigitChar(d) == ch
  {
    (ch as int - '0' as int) as nat
  }

  /** Decimal digits of a natural number, most significant first, no leading zeros. */
  function NatToString(n: nat): (s: string)
    ensures |s| >= 1
    ensures forall i :: 0 <= i < |s| ==> IsDigit(s[i])
    decreases n
  {
    if n < 10 then [DigitChar(n)] else NatToString(n / 10) + [DigitChar(n % 10)]
  }

  /** Integer.toString: decimal, with a leading '-' for negative values. */
  function IntToString(x: int): (s: string)
    ensures |s| >= 1
    ensures x >= 0 ==> IsDigit(s[0])
    ensures x < 0 ==> s[0] == '-' && |s| >= 2
  {
    if x >= 0 then NatToString(x) else "-" + NatToString(-x)
  }

  /** The value of a non-empty run of decimal digits. */
  function DigitsValue(s: string): (n: nat)
    requires forall i :: 0 <= i < |s| ==> IsDigit(s[i])
    decreases |s|
  {
    if s == [] then 0 else 10 * DigitsValue(s[..|s| - 1]) + DigitValue(s[|s| - 1])
  }

  predicate AllDigits(s: string) { forall i :: 0 <= i < |s| ==> IsDigit(s[i]) }

  /**
   * Integer.parseInt restricted to ASCII: an optional '+' or '-', then at
   * least one decimal digit, and a value that fits in a Java int; None
   * stands for NumberFormatException.
   */
  function ParseInt(s: string): (r: Option<int>)
    ensures r.Some? ==> IsInt32(r.value)
  {
    var neg := |s| > 0 && s[0] == '-';
    var signed := |s| > 0 && (s[0] == '-' || s[0] == '+');
    var digits := if signed then s[1..] else s;
    if |digits| == 0 || !AllDigits(digits) then None
    else
      var n: int := DigitsValue(digits);
      var v := if neg then -n else n;
      if IsInt32(v) then Some(v) else None
  }

  lemma {:induction false} DigitsOfNat(n: nat)
    ensures AllDigits(NatToString(n))
    ensures DigitsValue(NatToString(n)) == n
    decreases n
  {
    var s := NatToString(n);
    if n >= 10 {
      DigitsOfNat(n / 10);
      assert s[..|s| - 1] == NatToString(n / 10);
      assert DigitValue(s[|s| - 1]) == n % 10;
    } else {
      assert s[..0] == [];
    }
  }

  /** Integer.parseInt(Integer.toString(x)) == x for every Java int. */
  lemma ParseIntOfIntToString(x: int)
    requires IsInt32(x)
    ensures ParseInt(IntToString(x)) == Some(x)
  {
    var s := IntToString(x);
    if x >= 0 {
      DigitsOfNat(x);
      assert s[0] != '-' && s[0] != '+';
    } else {
      DigitsOfNat(0 - x);
      assert s[1..] == NatToString(-x);
    }
  }

  // ---------------------------------------------------------- whitespace

  /** StringTokenizer's default delimiter set " \t\n\r\f". */
  predicate IsDelimiter(ch: char) {
    ch == ' ' || ch == '\t' || ch == '\n' || ch == '\r' || ch == '\U{000C}'
  }

  /** String.trim: drops every leading and trailing character <= U+0020. */
  function Trim(s: string): (t: string)
    ensures |t| <= |s|
    ensures |t| > 0 ==> t[0] > ' ' && t[|t| - 1] > ' '
    decreases |s|
  {
    if |s| > 0 && s[0] <= ' ' then Trim(s[1..])
    else if |s| > 0 && s[|s| - 1] <= ' ' then Trim(s[..|s| - 1])
    else s
  }

  /** Length of the leading run of non-delimiters. */
  function TokenLength(s: string): (n: nat)
    ensures n <= |s|
    decreases |s|
  {
    if |s| == 0 || IsDelimiter(s[0]) then 0 else 1 + TokenLength(s[1..])
  }

  /** A token runs up to the first delimiter or the end of the string. */
  lemma {:induction false} TokenLengthStops(s: string)
    ensures forall i :: 0 <= i < TokenLength(s) ==> !IsDelimiter(s[i])
    ensures TokenLength(s) < |s| ==> IsDelimiter(s[TokenLength(s)])
    decreases |s|
  {
    if |s| > 0 && !IsDelimiter(s[0]) {
      TokenLengthStops(s[1..]);
    }
  }

  /** The tokens a default StringTokenizer returns for `s`, in order. */
  function Tokens(s: string): (ts: seq<string>)
    decreases |s|
  {
    if |s| == 0 then []
    else if IsDelimiter(s[0]) then Tokens(s[1..])
    else
      var n := TokenLength(s);
      [s[..n]] + Tokens(s[n..])
  }

  /** A non-empty string with no delimiter: what StringTokenizer can hand out. */
  predicate IsToken(t: string) {
    |t| > 0 && forall i :: 0 <= i < |t| ==> !IsDelimiter(t[i])
  }

  /** Every token is non-empty and free of delimiters. */
  lemma {:induction false} TokensAreTokens(s: string)
    ensures forall i :: 0 <= i < |Tokens(s)| ==> IsToken(Tokens(s)[i])
    decreases |s|
  {
    if |s| > 0 {
      if IsDelimiter(s[0]) {
        TokensAreTokens(s[1..]);
      } else {
        var n := TokenLength(s);
        TokenLengthStops(s);
        TokensAreTokens(s[n..]);
        assert Tokens(s) == [s[..n]] + Tokens(s[n..]);
      }
    }
  }

  /** Words joined by single spaces. */
  function JoinSpaced(ws: seq<string>): string
  {
    if |ws| == 0 then ""
    else if |ws| == 1 then ws[0]
    else ws[0] + " " + JoinSpaced(ws[1..])
  }

  lemma {:induction false} TokenLengthOfToken(t: string, rest: string)
    requires IsToken(t)
    requires |rest| == 0 || IsDelimiter(rest[0])
    ensures TokenLength(t + rest) == |t|
    decreases |t|
  {
    if |t| > 1 {
      assert (t + rest)[1..] == t[1..] + rest;
      TokenLengthOfToken(t[1..], rest);
    } else {
      assert (t + rest)[1..] == rest;
    }
  }

  /** Splitting a space-joined line of tokens gives the tokens back. */
  lemma {:induction false} TokensOfJoinSpaced(ws: seq<string>)
    requires forall i :: 0 <= i < |ws| ==> IsToken(ws[i])
    ensures Tokens(JoinSpaced(ws)) == ws
    decreases |ws|
  {
    if |ws| == 1 {
      TokenLengthOfToken(ws[0], "");
      assert ws[0] + "" == ws[0];
      assert ws[0][|ws[0]|..] == "";
      assert ws[0][..|ws[0]|] == ws[0];
    } else if |ws| > 1 {
      var rest := JoinSpaced(ws[1..]);
      var s := ws[0] + " " + rest;
      assert s == ws[0] + (" " + rest);
      TokenLengthOfToken(ws[0], " " + rest);
      assert s[..|ws[0]|] == ws[0];
      assert s[|ws[0]|..] == " " + rest;
      assert (" " + rest)[1..] == rest;
      TokensOfJoinSpaced(ws[1..]);
      assert Tokens(" " + rest) == Tokens(rest);
    }
  }

  /** The tokens of a string count its words: none for an all-delimiter line. */
  lemma {:induction false} TokensOfBlank(s: string)
    requires forall i :: 0 <= i < |s| ==> IsDelimiter(s[i])
    ensures Tokens(s) == []
    decreases |s|
  {
    if |s| > 0 { TokensOfBlank(s[1..]); }
  }

  // --------------------------------------------------------------- lines

  /**
   * The lines BufferedReader.readLine hands out for `text` when every line
   * ends in '\n': the text between consecutive newlines, and a last
   * unterminated line if one is left.
   */
  function Lines(text: string): (ls: seq<string>)
    decreases |text|
  {
    if |text| == 0 then []
    else
      var n := LineLength(text);
      if n == |text| then [text]
      else [text[..n]] + Lines(text[n + 1..])
  }

  function LineLength(text: string): (n: nat)
    ensures n <= |text|
    ensures forall i :: 0 <= i < n ==> text[i] != '\n'
    ensures n < |text| ==> text[n] == '\n'
    decreases |text|
  {
    if |text| == 0 || text[0] == '\n' then 0 else 1 + LineLength(text[1..])
  }

  predicate NoNewline(s: string) { forall i :: 0 <= i < |s| ==> s[i] != '\n' }

  lemma {:induction false} LineLengthOfLine(line: string, rest: string)
    requires NoNewline(line)
    ensures LineLength(line + "\n" + rest) == |line|
    decreases |line|
  {
    if |line| > 0 {
      assert (line + "\n" + rest)[1..] == line[1..] + "\n" + rest;
      LineLengthOfLine(line[1..], rest);
    }
  }

  /** Lines of a newline-terminated line followed by more text. */
  lemma LinesOfLine(line: string, rest: string)
    requires NoNewline(line)
    ensures Lines(line + "\n" + rest) == [line] + Lines(rest)
  {
    var text := line + "\n" + rest;
    LineLengthOfLine(line, rest);
    assert text[..|line|] == line;
    assert text[|line| + 1..] == rest;
  }

  /** Every line followed by a newline, as println writes them. */
  function Terminated(ls: seq<string>): (text: string)
    decreases |ls|
  {
    if ls == [] then "" else ls[0] + "\n" + Terminated(ls[1..])
  }

  /** Printing one more line appends it and its newline. */
  lemma {:induction false} TerminatedSnoc(ls: seq<string>, line: string)
    ensures Terminated(ls + [line]) == Terminated(ls) + line + "\n"
    decreases |ls|
  {
    if ls != [] {
      assert (ls + [line])[1..] == ls[1..] + [line];
      TerminatedSnoc(ls[1..], line);
    } else {
      assert [line][1..] == [];
    }
  }

  /** Reading back println's output line by line gives the printed lines. */
  lemma {:induction false} LinesOfTerminated(ls: seq<string>)
    requires forall i :: 0 <= i < |ls| ==> NoNewline(ls[i])
    ensures Lines(Terminated(ls)) == ls
    decreases |ls|
  {
    if ls != [] {
      LinesOfLine(ls[0], Terminated(ls[1..]));
      LinesOfTerminated(ls[1..]);
    }
  }

  /** Integer.toString writes only decimal digits and a leading minus sign. */
  lemma IntToStringChars(x: int)
    ensures forall i :: 0 <= i < |IntToString(x)| ==> IntToString(x)[i] == '-' || IsDigit(IntToString(x)[i])
  {
    var s := IntToString(x);
    if x < 0 {
      assert s == "-" + NatToString(-x);
      forall i | 0 <= i < |s| ensures s[i] == '-' || IsDigit(s[i]) {
        if i > 0 { assert s[i] == NatToString(-x)[i - 1]; }
      }
    }
  }

  /** Integer.toString holds no delimiter and no newline: it is one token. */
  lemma IntToStringIsToken(x: int)
    ensures IsToken(IntToString(x)) && NoNewline(IntToString(x))
  {
    IntToStringChars(x);
  }

  /** A string with no newline is a single line. */
  lemma {:induction false} LineLengthNoNewline(s: string)
    requires NoNewline(s)
    ensures LineLength(s) == |s|
    decreases |s|
  {
    if |s| > 0 {
      LineLengthNoNewline(s[1..]);
    }
  }

  /** A non-empty string with no newline reads as one line. */
  lemma LinesOfLast(last: string)
    requires NoNewline(last) && |last| > 0
    ensures Lines(last) == [last]
  {
    LineLengthNoNewline(last);
  }

  /** Lines printed with println come back first, whatever text follows them. */
  lemma {:induction false} LinesAfterTerminated(ls: seq<string>, rest: string)
    requires forall i :: 0 <= i < |ls| ==> NoNewline(ls[i])
    ensures Lines(Terminated(ls) + rest) == ls + Lines(rest)
    decreases |ls|
  {
    if ls == [] {
      assert Terminated(ls) == "";
      assert "" + rest == rest;
      assert ls + Lines(rest) == Lines(rest);
    } else {
      var tail := ls[1..];
      var after := Terminated(tail) + rest;
      TerminatedCons(ls, rest);
      LinesOfLine(ls[0], after);
      assert Lines(Terminated(ls) + rest) == [ls[0]] + Lines(after);
      LinesAfterTerminated(tail, rest);
      ConsAppend(ls, Lines(rest));
    }
  }

  lemma ConsAppend<T>(xs: seq<T>, more: seq<T>)
    requires xs != []
    ensures [xs[0]] + (xs[1..] + more) == xs + more
  {
    assert xs == [xs[0]] + xs[1..];
  }

  lemma TerminatedCons(ls: seq<string>, rest: string)
    requires ls != []
    ensures Terminated(ls) + rest == ls[0] + "\n" + (Terminated(ls[1..]) + rest)
  {
    AppendAssoc(ls[0] + "\n", Terminated(ls[1..]), rest);
  }

  lemma AppendAssoc<T>(a: seq<T>, b: seq<T>, c: seq<T>)
    ensures a + b + c == a + (b + c)
  {
  }

  /** Reading back println's lines followed by an unterminated last line. */
  lemma LinesOfTerminatedThen(ls: seq<string>, last: string)
    requires forall i :: 0 <= i < |ls| ==> NoNewline(ls[i])
    requires NoNewline(last) && |last| > 0
    ensures Lines(Terminated(ls) + last) == ls + [last]
  {
    LinesAfterTerminated(ls, last);
    LinesOfLast(last);
  }

  /** Joining one more word adds a space and the word. */
  lemma {:induction false} JoinSpacedSnoc(ws: seq<string>, w: string)
    requires |ws| > 0
    ensures JoinSpaced(ws + [w]) == JoinSpaced(ws) + " " + w
    decreases |ws|
  {
    if |ws| > 1 {
      assert (ws + [w])[1..] == ws[1..] + [w];
      JoinSpacedSnoc(ws[1..], w);
    } else {
      assert (ws + [w])[1..] == [w];
    }
  }
}
