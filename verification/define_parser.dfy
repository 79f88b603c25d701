/** The `#define` extractor the host image builder uses to read QFU settings
    from a C header (tools/sysupdate/qmfmlib/qfu.py, QFUDefineParser).

    A line is tried against the hexadecimal pattern
    `^\s*#define\s+(\S+)\s+\(?0x(HEX+)\)?` first and against the decimal
    pattern `^\s*#define\s+(\S+)\s+\(?(\d+)\)?` only when the first does not
    match. Both patterns are anchored at the start of the line only, so
    anything after the digits is ignored. Here each pattern is written out as
    the match the regular-expression engine returns: every `+` and `*` above
    is followed by something its own class excludes, so its match is the
    maximal run. */
module DefineParser {
  import opened Wrappers

  /** `\s` on ASCII text: space, tab, newline, vertical tab, form feed,
      carriage return. */
  predicate IsSpace(c: char) {
    c == ' ' || ('\t' <= c <= '\r')
  }

  predicate IsNonSpace(c: char) {
    !IsSpace(c)
  }

  predicate IsDigit(c: char) {
    '0' <= c <= '9'
  }

  predicate IsHexDigit(c: char) {
    IsDigit(c) || ('a' <= c <= 'f') || ('A' <= c <= 'F')
  }

  /** The hexadecimal class as written, `[0-9,a-f,A-F]`: the commas meant
      as separators are members of the class. */
  predicate InHexClassAsWritten(c: char) {
    IsHexDigit(c) || c == ','
  }

  predicate AllHexDigits(s: string) {
    forall k :: 0 <= k < |s| ==> IsHexDigit(s[k])
  }

  predicate AllDigits(s: string) {
    forall k :: 0 <= k < |s| ==> IsDigit(s[k])
  }

  function DigitValue(c: char): (v: nat)
    requires IsHexDigit(c)
    ensures v < 16
    ensures IsDigit(c) ==> v < 10
  {
    if IsDigit(c) then c as int - '0' as int
    else if 'a' <= c <= 'f' then c as int - 'a' as int + 10
    else c as int - 'A' as int + 10
  }

  /** The number `int(s, base)` returns for a string of digits, most
      significant first. */
  function Value(s: string, base: nat): nat
    requires AllHexDigits(s)
    decreases |s|
  {
    if s == [] then 0 else Value(s[..|s| - 1], base) * base + DigitValue(s[|s| - 1])
  }

  /** The end of the maximal run of characters satisfying `p` that starts at
      `i`. */
  function Span(s: string, i: nat, p: char -> bool): (j: nat)
    requires i <= |s|
    ensures i <= j <= |s|
    ensures forall k :: i <= k < j ==> p(s[k])
    ensures j < |s| ==> !p(s[j])
    decreases |s| - i
  {
    if i < |s| && p(s[i]) then Span(s, i + 1, p) else i
  }

  /** Any run that is bounded by a character outside the class is the span. */
  lemma {:induction false} SpanIs(s: string, i: nat, j: nat, p: char -> bool)
    requires i <= j <= |s|
    requires forall k :: i <= k < j ==> p(s[k])
    requires j < |s| ==> !p(s[j])
    ensures Span(s, i, p) == j
    decreases j - i
  {
    if i < j {
      SpanIs(s, i + 1, j, p);
    }
  }

  /** The part both patterns share, `^\s*#define\s+(\S+)\s+\(?`: the macro
      name and the position where the value starts. */
  function MatchPrefix(line: string): (r: Option<(string, nat)>)
    ensures r.Some? ==> r.value.1 <= |line| && |r.value.0| > 0
    ensures r.Some? ==> forall k :: 0 <= k < |r.value.0| ==> IsNonSpace(r.value.0[k])
  {
    var i0 := Span(line, 0, IsSpace);
    if !(i0 + 7 <= |line| && line[i0..i0 + 7] == "#define") then None
    else
      var i1 := i0 + 7;
      var i2 := Span(line, i1, IsSpace);
      if i2 == i1 then None
      else
        var i3 := Span(line, i2, IsNonSpace);
        if i3 == i2 then None
        else
          var i4 := Span(line, i3, IsSpace);
          if i4 == i3 then None
          else
            var j := if i4 < |line| && line[i4] == '(' then i4 + 1 else i4;
            assert forall k :: 0 <= k < i3 - i2 ==> line[i2..i3][k] == line[i2 + k];
            Some((line[i2..i3], j))
  }

  /** `int()` refused the digits the pattern captured. */
  datatype ParseError = ValueError(digits: string)

  /** The value part of the two patterns, from position `j`:
      `0x(HEX+)` tried first, then `(\d+)`. */
  function ParseValueWith(line: string, j: nat, hexClass: char -> bool): Result<Option<int>, ParseError>
    requires j <= |line|
  {
    if j + 2 <= |line| && line[j..j + 2] == "0x" && Span(line, j + 2, hexClass) > j + 2 then
      var grp := line[j + 2..Span(line, j + 2, hexClass)];
      if AllHexDigits(grp) then Success(Some(Value(grp, 16)))
      else Failure(ValueError(grp))
    else if Span(line, j, IsDigit) > j then
      Success(Some(Value(line[j..Span(line, j, IsDigit)], 10)))
    else
      Success(None)
  }

  /** `_check_line`, with the hexadecimal class as a parameter: the value a
      line defines, nothing for a line neither pattern matches, or the error
      `int()` raises. */
  function ParseLineWith(line: string, hexClass: char -> bool): Result<Option<(string, int)>, ParseError> {
    match MatchPrefix(line)
    case None => Success(None)
    case Some((name, j)) =>
      var v :- ParseValueWith(line, j, hexClass);
      Success(if v.Some? then Some((name, v.value)) else None)
  }

  /** `_check_line` as written, with the comma inside the hexadecimal class. */
  function ParseLineAsWritten(line: string): Result<Option<(string, int)>, ParseError> {
    ParseLineWith(line, InHexClassAsWritten)
  }

  /** `_check_line` with the class the pattern evidently intends,
      `[0-9a-fA-F]`; the rest of the model uses this one. It never fails, and
      a line it accepts names a macro and a non-negative value. */
  function ParseLine(line: string): (r: Result<Option<(string, int)>, ParseError>)
    ensures r.Success?
    ensures r.value.Some? ==> |r.value.value.0| > 0 && r.value.value.1 >= 0
  {
    ParseLineWith(line, IsHexDigit)
  }

  /** A C macro whose value is a list of hexadecimal numbers, a line the
      parser is meant to skip or read loosely, makes `int()` raise as
      written, which aborts reading the whole configuration file. */
  lemma CommaListLineAsWritten(line: string)
    requires line == "#define PAIR 0x1,0x2"
    ensures ParseLineAsWritten(line) == Failure(ValueError("1,0"))
  {
    PairLinePrefix(line);
    assert line[13..15] == "0x" && line[15..18] == "1,0";
    assert Span(line, 15, InHexClassAsWritten) == 18 by {
      SpanIs(line, 15, 18, InHexClassAsWritten);
    }
    assert !AllHexDigits("1,0") by {
      assert !IsHexDigit("1,0"[1]);
    }
  }

  /** With the intended class the same line defines its first number. */
  lemma CommaListLineCorrected(line: string)
    requires line == "#define PAIR 0x1,0x2"
    ensures ParseLine(line) == Success(Some(("PAIR", 1)))
  {
    PairLinePrefix(line);
    assert line[13..] == "0x" + "1" + ",0x2";
    HexValueAt(line, 13, "1", ",0x2");
    ParseLineFromParts(line, "PAIR", 13, 1);
  }

  lemma PairLinePrefix(line: string)
    requires line == "#define PAIR 0x1,0x2"
    ensures MatchPrefix(line) == Some(("PAIR", 13))
  {
    assert line == "#define " + "PAIR" + " " + "0x1,0x2";
    DefinePrefixMatches("PAIR", "0x1,0x2");
  }

  /** What one line contributes to the macro table read with the corrected
      class. */
  function Entry(line: string): Option<(string, int)> {
    ParseLine(line).value
  }

  /** The table built by reading `lines` in order with `entry`: a later line
      naming the same macro replaces the earlier value, a line without an
      entry changes nothing. */
  function Table(lines: seq<string>, entry: string -> Option<(string, int)>): map<string, int>
    decreases |lines|
  {
    if lines == [] then map[]
    else
      var m := Table(lines[..|lines| - 1], entry);
      var r := entry(lines[|lines| - 1]);
      if r.Some? then m[r.value.0 := r.value.1] else m
  }

  lemma {:induction false} TableLastWins(lines: seq<string>, entry: string -> Option<(string, int)>,
                                         name: string, i: nat, v: int)
    requires i < |lines| && entry(lines[i]) == Some((name, v))
    requires forall k :: i < k < |lines| && entry(lines[k]).Some? ==> entry(lines[k]).value.0 != name
    ensures name in Table(lines, entry) && Table(lines, entry)[name] == v
    decreases |lines|
  {
    var last := |lines| - 1;
    if i < last {
      assert lines[..last][i] == lines[i];
      TableLastWins(lines[..last], entry, name, i, v);
    }
  }

  lemma {:induction false} TableOnlyFromLines(lines: seq<string>, entry: string -> Option<(string, int)>,
                                              name: string)
    requires name in Table(lines, entry)
    ensures exists i :: 0 <= i < |lines| && entry(lines[i]) == Some((name, Table(lines, entry)[name]))
    decreases |lines|
  {
    var last := |lines| - 1;
    var r := entry(lines[last]);
    if r.Some? && r.value.0 == name {
      assert entry(lines[last]) == Some((name, Table(lines, entry)[name]));
    } else {
      TableOnlyFromLines(lines[..last], entry, name);
      var i :| 0 <= i < last && entry(lines[..last][i]) == Some((name, Table(lines[..last], entry)[name]));
      assert lines[..last][i] == lines[i];
    }
  }

  /** The macro table QFUDefineParser builds from the lines of a header. */
  function Defines(lines: seq<string>): map<string, int> {
    Table(lines, Entry)
  }

  /** Line `line` defines `name` as `v`. */
  predicate LineDefines(line: string, name: string, v: int) {
    Entry(line) == Some((name, v))
  }

  /** The value of a macro is the one from the last line that defines it. */
  lemma DefinesLastWins(lines: seq<string>, name: string, i: nat, v: int)
    requires i < |lines| && LineDefines(lines[i], name, v)
    requires forall k, w :: i < k < |lines| ==> !LineDefines(lines[k], name, w)
    ensures name in Defines(lines) && Defines(lines)[name] == v
  {
    forall k | i < k < |lines| && Entry(lines[k]).Some?
      ensures Entry(lines[k]).value.0 != name
    {
      assert !LineDefines(lines[k], name, Entry(lines[k]).value.1);
    }
    TableLastWins(lines, Entry, name, i, v);
  }

  /** Every macro in the table comes from a line that defines it with that
      value. */
  lemma DefinesOnlyFromLines(lines: seq<string>, name: string)
    requires name in Defines(lines)
    ensures exists i :: 0 <= i < |lines| && LineDefines(lines[i], name, Defines(lines)[name])
  {
    TableOnlyFromLines(lines, Entry, name);
  }

  /** The two classes read a line alike unless the as-written one captures
      a comma: then `int()` refuses the capture, and otherwise both give the
      same entry. */
  lemma ParseLineAsWrittenAgrees(line: string)
    ensures ParseLineAsWritten(line).Success? ==> ParseLineAsWritten(line) == ParseLine(line)
    ensures ParseLineAsWritten(line).Failure? ==> ',' in ParseLineAsWritten(line).error.digits
  {
    if MatchPrefix(line).Some? {
      ParseValueAsWrittenAgrees(line, MatchPrefix(line).value.1);
    }
  }

  /** The value part: the as-written class either captures the same hex
      digits as the intended one, or captures a comma and fails. */
  lemma ParseValueAsWrittenAgrees(line: string, j: nat)
    requires j <= |line|
    ensures var r := ParseValueWith(line, j, InHexClassAsWritten);
      && (r.Success? ==> r == ParseValueWith(line, j, IsHexDigit))
      && (r.Failure? ==> ',' in r.error.digits)
  {
    if j + 2 <= |line| && line[j..j + 2] == "0x" {
      var a := Span(line, j + 2, InHexClassAsWritten);
      if a > j + 2 {
        var grp := line[j + 2..a];
        if AllHexDigits(grp) {
          forall k | j + 2 <= k < a
            ensures IsHexDigit(line[k])
          {
            assert line[k] == grp[k - j - 2];
          }
          SpanIs(line, j + 2, a, IsHexDigit);
        } else {
          var k :| 0 <= k < |grp| && !IsHexDigit(grp[k]);
          assert grp[k] == line[j + 2 + k];
          assert grp[k] == ',';
        }
      } else {
        SpanIs(line, j + 2, j + 2, IsHexDigit);
      }
    }
  }

  /** The table built by reading `lines` in order with `parse`, ended by
      the first line `parse` refuses, whose error it reports. */
  function TableChecked(lines: seq<string>, parse: string -> Result<Option<(string, int)>, ParseError>)
    : Result<map<string, int>, ParseError>
    decreases |lines|
  {
    if lines == [] then Success(map[])
    else
      var m :- TableChecked(lines[..|lines| - 1], parse);
      var e :- parse(lines[|lines| - 1]);
      Success(if e.Some? then m[e.value.0 := e.value.1] else m)
  }

  /** When `parse` gives `entry`'s answer on every line it accepts, the
      checked read succeeds exactly when every line is accepted, and then
      builds `entry`'s table. */
  lemma {:induction false} TableCheckedAgrees(lines: seq<string>, parse: string -> Result<Option<(string, int)>, ParseError>,
                                              entry: string -> Option<(string, int)>)
    requires forall line :: parse(line).Success? ==> parse(line).value == entry(line)
    ensures TableChecked(lines, parse).Success? <==> forall k :: 0 <= k < |lines| ==> parse(lines[k]).Success?
    ensures TableChecked(lines, parse).Success? ==> TableChecked(lines, parse).value == Table(lines, entry)
    decreases |lines|
  {
    if lines != [] {
      var last := |lines| - 1;
      var init := lines[..last];
      TableCheckedAgrees(init, parse, entry);
      assert forall k :: 0 <= k < last ==> init[k] == lines[k];
    }
  }

  /** A failed checked read reports the error of the first refused line. */
  lemma {:induction false} TableCheckedFirstError(lines: seq<string>, parse: string -> Result<Option<(string, int)>, ParseError>)
    requires TableChecked(lines, parse).Failure?
    ensures exists i :: 0 <= i < |lines| && parse(lines[i]) == Failure(TableChecked(lines, parse).error)
                     && forall k :: 0 <= k < i ==> parse(lines[k]).Success?
    decreases |lines|
  {
    var last := |lines| - 1;
    var init := lines[..last];
    assert forall k :: 0 <= k < last ==> init[k] == lines[k];
    if TableChecked(init, parse).Failure? {
      TableCheckedFirstError(init, parse);
      var i :| 0 <= i < |init| && parse(init[i]) == Failure(TableChecked(init, parse).error)
               && forall k :: 0 <= k < i ==> parse(init[k]).Success?;
      assert parse(lines[i]) == Failure(TableChecked(lines, parse).error);
    } else {
      TableCheckedAgrees(init, parse, (line: string) => if parse(line).Success? then parse(line).value else None);
    }
  }

  /** QFUDefineParser as written: the lines in order, the first one whose
      capture `int()` refuses ending the read with that error. */
  function DefinesAsWritten(lines: seq<string>): Result<map<string, int>, ParseError> {
    TableChecked(lines, ParseLineAsWritten)
  }

  /** Reading a file as written succeeds exactly when no line captures a
      comma, and then gives the table of the corrected parser. */
  lemma DefinesAsWrittenAgrees(lines: seq<string>)
    ensures DefinesAsWritten(lines).Success? <==>
              forall k :: 0 <= k < |lines| ==> ParseLineAsWritten(lines[k]).Success?
    ensures DefinesAsWritten(lines).Success? ==> DefinesAsWritten(lines).value == Defines(lines)
  {
    forall line: string | ParseLineAsWritten(line).Success?
      ensures ParseLineAsWritten(line).value == Entry(line)
    {
      ParseLineAsWrittenAgrees(line);
    }
    TableCheckedAgrees(lines, ParseLineAsWritten, Entry);
  }

  /** A failed read reports the error of the first line whose capture
      `int()` refuses. */
  lemma DefinesAsWrittenFirstError(lines: seq<string>)
    requires DefinesAsWritten(lines).Failure?
    ensures exists i :: 0 <= i < |lines| && ParseLineAsWritten(lines[i]) == Failure(DefinesAsWritten(lines).error)
                     && forall k :: 0 <= k < i ==> ParseLineAsWritten(lines[k]).Success?
  {
    TableCheckedFirstError(lines, ParseLineAsWritten);
  }



  /** The decimal digits `str(n)` prints; they read back as `n`. */
  function DecimalDigits(n: nat): (s: string)
    ensures |s| > 0 && AllDigits(s) && AllHexDigits(s)
    ensures Value(s, 10) == n
    decreases n
  {
    var d := ['0' + (n % 10) as char];
    if n < 10 then d
    else
      var s := DecimalDigits(n / 10) + d;
      assert s[..|s| - 1] == DecimalDigits(n / 10);
      s
  }

  function HexDigit(v: nat): (c: char)
    requires v < 16
    ensures IsHexDigit(c) && DigitValue(c) == v
  {
    if v < 10 then '0' + v as char else 'a' + (v - 10) as char
  }

  /** The lower-case hexadecimal digits `"%x" % n` prints; they read back
      as `n`. */
  function HexDigits(n: nat): (s: string)
    ensures |s| > 0 && AllHexDigits(s)
    ensures Value(s, 16) == n
    decreases n
  {
    var d := [HexDigit(n % 16)];
    if n < 16 then d
    else
      var s := HexDigits(n / 16) + d;
      assert s[..|s| - 1] == HexDigits(n / 16);
      s
  }

  predicate IsMacroName(name: string) {
    |name| > 0 && forall k :: 0 <= k < |name| ==> IsNonSpace(name[k])
  }

  /** The prefix of a line `#define NAME ` with one space on each side;
      an opening parenthesis after it is skipped. */
  lemma DefinePrefixMatches(name: string, rest: string)
    requires IsMacroName(name)
    requires |rest| > 0 && IsNonSpace(rest[0])
    ensures MatchPrefix("#define " + name + " " + rest)
         == Some((name, if rest[0] == '(' then 10 + |name| else 9 + |name|))
  {
    var line := "#define " + name + " " + rest;
    var n := |name|;
    assert line[0] == '#';
    SpanIs(line, 0, 0, IsSpace);
    assert line[0..7] == "#define";
    assert line[8] == name[0];
    SpanIs(line, 7, 8, IsSpace);
    assert forall k :: 8 <= k < 8 + n ==> line[k] == name[k - 8];
    assert line[8 + n] == ' ';
    SpanIs(line, 8, 8 + n, IsNonSpace);
    assert line[9 + n] == rest[0];
    SpanIs(line, 8 + n, 9 + n, IsSpace);
    assert line[8..8 + n] == name;
  }

  /** A line is read as its prefix and its value part. */
  lemma ParseLineFromParts(line: string, name: string, j: nat, v: int)
    requires MatchPrefix(line) == Some((name, j))
    requires ParseValueWith(line, j, IsHexDigit) == Success(Some(v))
    ensures ParseLine(line) == Success(Some((name, v)))
  {
  }

  /** Digits from `j` to the end of the line are read as a decimal value. */
  lemma DecimalValueAt(line: string, j: nat, digits: string)
    requires j <= |line| && line[j..] == digits
    requires |digits| > 0 && AllDigits(digits) && AllHexDigits(digits)
    ensures ParseValueWith(line, j, IsHexDigit) == Success(Some(Value(digits, 10)))
  {
    if j + 2 <= |line| {
      assert line[j..j + 2][1] == digits[1];
    }
    SpanIs(line, j, |line|, IsDigit);
    assert line[j..|line|] == digits;
  }

  /** `0x` and hexadecimal digits from `j`, followed by the end of the line
      or a character outside the class, are read as a hexadecimal value. */
  lemma HexValueAt(line: string, j: nat, digits: string, tail: string)
    requires j <= |line| && line[j..] == "0x" + digits + tail
    requires |digits| > 0 && AllHexDigits(digits)
    requires tail == [] || !IsHexDigit(tail[0])
    ensures ParseValueWith(line, j, IsHexDigit) == Success(Some(Value(digits, 16)))
  {
    var end := j + 2 + |digits|;
    var r := line[j..];
    assert line[j..j + 2] == r[..2] == "0x";
    assert line[j + 2..end] == r[2..2 + |digits|] == digits;
    forall k | j + 2 <= k < end
      ensures IsHexDigit(line[k])
    {
      assert line[k] == line[j + 2..end][k - j - 2];
    }
    if end < |line| {
      assert line[end] == r[2 + |digits|] == tail[0];
    }
    SpanIs(line, j + 2, end, IsHexDigit);
  }

  /** The text after `#define NAME `. */
  lemma ValuePart(name: string, v: string)
    ensures ("#define " + name + " " + v)[9 + |name|..] == v
  {
  }

  /** A decimal define line reads back as the name and number it was
      written with. */
  lemma DecimalLineRoundTrip(name: string, n: nat)
    requires IsMacroName(name)
    ensures ParseLine("#define " + name + " " + DecimalDigits(n)) == Success(Some((name, n)))
  {
    var digits := DecimalDigits(n);
    var line := "#define " + name + " " + digits;
    DefinePrefixMatches(name, digits);
    assert line[9 + |name|..] == digits;
    DecimalValueAt(line, 9 + |name|, digits);
    ParseLineFromParts(line, name, 9 + |name|, n);
  }

  /** A hexadecimal define line reads back as the name and number it was
      written with. */
  lemma HexLineRoundTrip(name: string, n: nat)
    requires IsMacroName(name)
    ensures ParseLine("#define " + name + " 0x" + HexDigits(n)) == Success(Some((name, n)))
  {
    var digits := HexDigits(n);
    var v := "0x" + digits;
    var line := "#define " + name + " " + v;
    assert line == "#define " + name + " 0x" + digits;
    DefinePrefixMatches(name, v);
    ValuePart(name, v);
    assert v == "0x" + digits + "";
    HexValueAt(line, 9 + |name|, digits, "");
    ParseLineFromParts(line, name, 9 + |name|, n);
  }

  /** Dropping the first character of equal strings keeps them equal. */
  lemma DropFirst(a: string, b: string)
    requires a == b && |a| > 0
    ensures a[1..] == b[1..]
  {
  }

  /** The text inside the opening parenthesis of a parenthesised value. */
  lemma ParenTail(digits: string)
    ensures ("(0x" + digits + ")")[1..] == "0x" + digits + ")"
  {
    var v := "(0x" + digits + ")";
    assert forall k :: 0 <= k < |v| - 1 ==> v[1..][k] == ("0x" + digits + ")")[k];
  }

  /** The same holds for the parenthesised form `(0x...)`. */
  lemma ParenthesisedHexLineRoundTrip(name: string, n: nat)
    requires IsMacroName(name)
    ensures ParseLine("#define " + name + " (0x" + HexDigits(n) + ")") == Success(Some((name, n)))
  {
    var digits := HexDigits(n);
    var v := "(0x" + digits + ")";
    var line := "#define " + name + " " + v;
    var i := 9 + |name|;
    assert line == "#define " + name + " (0x" + digits + ")";
    DefinePrefixMatches(name, v);
    ValuePart(name, v);
    DropFirst(line[i..], v);
    assert line[i + 1..] == line[i..][1..];
    ParenTail(digits);
    HexValueAt(line, i + 1, digits, ")");
    ParseLineFromParts(line, name, i + 1, n);
  }
}
