/**
 * The JavaScript string and number primitives the server relies on, restricted to what the
 * model needs: ASCII upper-casing, `trim`, `startsWith`, `includes`, `parseInt` and the decimal
 * rendering of an integer inside a template literal. The server never splits text; `Split` is
 * here only to state the line structure of the text the handlers build.
 */
module JsText {
  import opened Wrappers

  /** ECMAScript WhiteSpace and LineTerminator code points: what `trim()` and `parseInt()` skip. */
  predicate IsJsSpace(c: char) {
    || c == '\t' || c == '\n' || c == '\U{B}' || c == '\U{C}' || c == '\r' || c == ' '
    || c == '\U{A0}' || c == '\U{1680}' || ('\U{2000}' <= c <= '\U{200A}')
    || c == '\U{2028}' || c == '\U{2029}' || c == '\U{202F}' || c == '\U{205F}'
    || c == '\U{3000}' || c == '\U{FEFF}'
  }

  /** `s.trimStart()`: drops the leading white space and nothing else. */
  function TrimStart(s: string): (r: string)
    ensures |r| <= |s| && r == s[|s| - |r|..]
    ensures forall i :: 0 <= i < |s| - |r| ==> IsJsSpace(s[i])
    ensures r == [] || !IsJsSpace(r[0])
  {
    if s != [] && IsJsSpace(s[0]) then
      var r := TrimStart(s[1..]);
      assert s[1..][|s| - 1 - |r|..] == s[|s| - |r|..];
      assert forall i :: 1 <= i < |s| - |r| ==> s[i] == s[1..][i - 1];
      r
    else s
  }

  lemma KeptByTrimStart(s: string)
    requires s != [] && !IsJsSpace(s[0])
    ensures TrimStart(s) == s
  {
  }

  /** `s.trimEnd()`: drops the trailing white space and nothing else. */
  function TrimEnd(s: string): (r: string)
    ensures |r| <= |s| && r == s[..|r|]
    ensures forall i :: |r| <= i < |s| ==> IsJsSpace(s[i])
    ensures r == [] || !IsJsSpace(r[|r| - 1])
  {
    if s != [] && IsJsSpace(s[|s| - 1]) then
      var r := TrimEnd(s[..|s| - 1]);
      assert s[..|s| - 1][..|r|] == s[..|r|];
      assert forall i :: |r| <= i < |s| - 1 ==> s[i] == s[..|s| - 1][i];
      r
    else s
  }

  /** `s.trim()`. */
  function Trim(s: string): string {
    TrimEnd(TrimStart(s))
  }

  /** `s.trim()` is a contiguous piece of `s` that neither starts nor ends with white space. */
  lemma TrimIsSlice(s: string)
    ensures Trim(s) == [] || (!IsJsSpace(Trim(s)[0]) && !IsJsSpace(Trim(s)[|Trim(s)| - 1]))
    ensures Trim(s) == s[|s| - |TrimStart(s)|..][..|Trim(s)|]
  {
  }

  /** Trimming only removes characters, so a character absent from `s` is absent from `s.trim()`. */
  lemma TrimKeepsOut(s: string, c: char)
    requires c !in s
    ensures c !in Trim(s)
  {
    TrimIsSlice(s);
    var a := |s| - |TrimStart(s)|;
    assert Trim(s) == s[a..a + |Trim(s)|];
  }

  /** `String.prototype.toUpperCase` on the ASCII letters; every other character is kept. */
  function UpperChar(c: char): char {
    if 'a' <= c <= 'z' then (c as int - 32) as char else c
  }

  predicate IsLowerAscii(c: char) {
    'a' <= c <= 'z'
  }

  /** `s.toUpperCase()`, restricted to ASCII letters. */
  function Upper(s: string): (r: string)
    ensures |r| == |s|
    ensures forall i :: 0 <= i < |s| ==> r[i] == UpperChar(s[i])
    ensures forall i :: 0 <= i < |r| ==> !IsLowerAscii(r[i])
  {
    seq(|s|, i requires 0 <= i < |s| => UpperChar(s[i]))
  }

  /** Upper-casing works character by character, so it commutes with slicing and concatenation. */
  lemma UpperSlice(s: string, k: nat)
    requires k <= |s|
    ensures Upper(s[k..]) == Upper(s)[k..]
  {
  }

  lemma UpperAppend(a: string, b: string)
    ensures Upper(a + b) == Upper(a) + Upper(b)
  {
  }

  /** Text with no lower-case ASCII letter is its own upper-case form. */
  lemma UpperFixed(s: string)
    requires forall i :: 0 <= i < |s| ==> !IsLowerAscii(s[i])
    ensures Upper(s) == s
  {
  }

  /** `s.startsWith(p)`. */
  predicate StartsWith(s: string, p: string) {
    |p| <= |s| && s[..|p|] == p
  }

  /** `w` occurs in `s` starting at index `i`. */
  predicate OccursAt(s: string, w: string, i: int) {
    0 <= i && i + |w| <= |s| && s[i..i + |w|] == w
  }

  /** `s.includes(w)`. */
  predicate Includes(s: string, w: string) {
    exists i :: 0 <= i <= |s| && OccursAt(s, w, i)
  }

  /** An occurrence in `b` is an occurrence in `a + b`, shifted by the length of `a`. */
  lemma OccursShift(a: string, b: string, w: string, i: int)
    requires 0 <= i
    ensures OccursAt(a + b, w, i + |a|) <==> OccursAt(b, w, i)
  {
    if i + |w| <= |b| {
      assert (a + b)[i + |a|..i + |a| + |w|] == b[i..i + |w|];
    }
  }

  /** The character of a decimal digit. */
  function DigitChar(d: int): (c: char)
    requires 0 <= d < 10
    ensures '0' <= c <= '9'
  {
    (('0' as int) + d) as char
  }

  /** The decimal digits of a natural number, most significant first, without leading zeros. */
  function NatDigits(n: nat): (r: string)
    ensures |r| >= 1
    ensures forall i :: 0 <= i < |r| ==> '0' <= r[i] <= '9'
    decreases n
  {
    if n < 10 then [DigitChar(n)] else NatDigits(n / 10) + [DigitChar(n % 10)]
  }

  /** The text of an integer-valued Number below 10^21 in magnitude in a template literal
      (`${n}`): an optional minus sign, then the decimal digits. From 10^21 on, JavaScript writes
      the exponent form instead (`1e+21`), which is not modelled. */
  function IntToString(n: int): (r: string)
    ensures |r| >= 1 && '0' <= r[|r| - 1] <= '9'
    ensures forall i :: 0 <= i < |r| ==> ('0' <= r[i] <= '9' || r[i] == '-')
  {
    if n < 0 then "-" + NatDigits(-n) else NatDigits(n)
  }

  /** The value of an alphanumeric character as a digit of radix up to 36; 36 when it is none. */
  function DigitValue(c: char): (v: nat)
    ensures v <= 36
  {
    if '0' <= c <= '9' then c as int - '0' as int
    else if 'a' <= c <= 'z' then c as int - 'a' as int + 10
    else if 'A' <= c <= 'Z' then c as int - 'A' as int + 10
    else 36
  }

  predicate IsDigitOf(c: char, radix: nat) {
    DigitValue(c) < radix
  }

  /** The length of the longest prefix of `s` made of digits of `radix`. */
  function DigitRun(s: string, radix: nat): (n: nat)
    ensures n <= |s|
    ensures forall i :: 0 <= i < n ==> IsDigitOf(s[i], radix)
    ensures n < |s| ==> !IsDigitOf(s[n], radix)
  {
    if s != [] && IsDigitOf(s[0], radix) then 1 + DigitRun(s[1..], radix) else 0
  }

  /** The value of a digit string in `radix`, most significant digit first. */
  function DigitsValue(ds: string, radix: nat): nat {
    if ds == [] then 0
    else DigitsValue(ds[..|ds| - 1], radix) * radix + DigitValue(ds[|ds| - 1])
  }

  /** The value of the longest run of `radix` digits at the start of `v`; `None` when it is empty. */
  function LeadingDigits(v: string, radix: nat): Option<nat> {
    var n := DigitRun(v, radix);
    if n == 0 then None else Some(DigitsValue(v[..n], radix))
  }

  /** An unsigned number: a `0x`/`0X` prefix selects radix 16, anything else radix 10. */
  function ParseMagnitude(u: string): Option<nat> {
    if |u| >= 2 && u[0] == '0' && (u[1] == 'x' || u[1] == 'X') then LeadingDigits(u[2..], 16)
    else LeadingDigits(u, 10)
  }

  /** An optionally signed number, after the leading white space is gone. */
  function ParseSigned(t: string): Option<int> {
    if t != [] && t[0] == '-' then
      match ParseMagnitude(t[1..])
      case None => None
      case Some(m) => Some(-(m as int))
    else
      match ParseMagnitude(if t != [] && t[0] == '+' then t[1..] else t)
      case None => None
      case Some(m) => Some(m as int)
  }

  /**
   * `parseInt(s)` with no radix argument: skip leading white space, take an optional sign, then
   * read an unsigned number. `None` stands for NaN, the result when no digit follows.
   */
  function ParseInt(s: string): Option<int> {
    ParseSigned(TrimStart(s))
  }

  lemma {:induction false} NatDigitsValue(n: nat)
    ensures DigitsValue(NatDigits(n), 10) == n
    decreases n
  {
    var ds := NatDigits(n);
    if n >= 10 {
      NatDigitsValue(n / 10);
      assert ds[..|ds| - 1] == NatDigits(n / 10);
    }
  }

  lemma {:induction false} DigitRunAll(ds: string, radix: nat)
    requires forall i :: 0 <= i < |ds| ==> IsDigitOf(ds[i], radix)
    ensures DigitRun(ds, radix) == |ds|
    decreases |ds|
  {
    if ds != [] {
      DigitRunAll(ds[1..], radix);
    }
  }

  /** A string of decimal digits reads as its value. */
  lemma MagnitudeOfDigits(ds: string)
    requires |ds| >= 1 && forall i :: 0 <= i < |ds| ==> '0' <= ds[i] <= '9'
    ensures ParseMagnitude(ds) == Some(DigitsValue(ds, 10))
  {
    assert !(|ds| >= 2 && ds[0] == '0' && (ds[1] == 'x' || ds[1] == 'X'));
    DigitRunAll(ds, 10);
    assert ds[..|ds|] == ds;
  }

  /** Decimal digits, with or without a minus sign in front, read as their value. */
  lemma {:induction false} SignedOfDigits(ds: string)
    requires |ds| >= 1 && forall i :: 0 <= i < |ds| ==> '0' <= ds[i] <= '9'
    ensures ParseSigned(ds) == Some(DigitsValue(ds, 10) as int)
    ensures ParseSigned("-" + ds) == Some(-(DigitsValue(ds, 10) as int))
  {
    MagnitudeOfDigits(ds);
    assert ds[0] != '-' && ds[0] != '+';
    assert ("-" + ds)[1..] == ds;
  }

  /** `parseInt` reads back decimal digits. */
  lemma ParseNatText(m: nat)
    ensures ParseInt(NatDigits(m)) == Some(m)
  {
    var ds := NatDigits(m);
    NatDigitsValue(m);
    SignedOfDigits(ds);
    assert '0' <= ds[0] <= '9';
    KeptByTrimStart(ds);
  }

  /** `parseInt` reads back decimal digits after a minus sign. */
  lemma ParseNegatedText(m: nat)
    ensures ParseInt("-" + NatDigits(m)) == Some(-(m as int))
  {
    var ds := NatDigits(m);
    NatDigitsValue(m);
    SignedOfDigits(ds);
    var neg := "-" + ds;
    assert neg[0] == '-';
    KeptByTrimStart(neg);
  }

  /** `parseInt` reads back the text of every integer: the two are inverse. */
  lemma ParseIntOfIntToString(n: int)
    ensures ParseInt(IntToString(n)) == Some(n)
  {
    var m: nat := if n < 0 then -n else n;
    ParseNatText(m);
    ParseNegatedText(m);
    var t := if n < 0 then "-" + NatDigits(m) else NatDigits(m);
    assert ParseInt(t) == Some(n);
    assert IntToString(n) == t;
  }

  /** The lines of `s` separated by '\n', as `s.split('\n')` returns them. */
  function Split(s: string): (r: seq<string>)
    ensures |r| >= 1
  {
    if s == [] then [""]
    else if s[0] == '\n' then [""] + Split(s[1..])
    else var rest := Split(s[1..]); [[s[0]] + rest[0]] + rest[1..]
  }

  /** Each line followed by '\n', in order: the text a loop of `output += `${line}\n`` builds. */
  function Join(lines: seq<string>): string {
    if lines == [] then "" else Join(lines[..|lines| - 1]) + (lines[|lines| - 1] + "\n")
  }

  lemma ConcatAssoc<T>(a: seq<T>, b: seq<T>, c: seq<T>)
    ensures a + b + c == a + (b + c)
  {
  }

  /** A concatenation starts with its first part, and dropping that part leaves the second. */
  lemma ConcatParts(a: string, b: string)
    ensures StartsWith(a + b, a) && (a + b)[|a|..] == b
  {
  }

  lemma {:induction false} JoinAppend(a: seq<string>, b: seq<string>)
    ensures Join(a + b) == Join(a) + Join(b)
    decreases |b|
  {
    if b == [] {
      assert a + b == a;
    } else {
      var init := b[..|b| - 1];
      var last := b[|b| - 1];
      assert (a + b)[..|a + b| - 1] == a + init;
      JoinAppend(a, init);
      ConcatAssoc(Join(a), Join(init), last + "\n");
    }
  }

  lemma JoinTwo(a: string, b: string)
    ensures Join([a, b]) == a + "\n" + (b + "\n")
  {
    assert [a, b][..1] == [a];
    assert [a][..0] == [];
    assert Join([a]) == "" + (a + "\n");
    assert "" + (a + "\n") == a + "\n";
  }

  /** One more step of the loop that builds a `Join`. */
  lemma JoinPrefix(lines: seq<string>, i: int)
    requires 0 <= i < |lines|
    ensures Join(lines[..i + 1]) == Join(lines[..i]) + (lines[i] + "\n")
  {
    assert lines[..i + 1][..i] == lines[..i];
  }

  lemma {:induction false} JoinCons(line: string, lines: seq<string>)
    ensures Join([line] + lines) == line + "\n" + Join(lines)
    decreases |lines|
  {
    if lines != [] {
      var init := lines[..|lines| - 1];
      JoinCons(line, init);
      assert ([line] + lines)[..|lines|] == [line] + init;
    }
  }

  lemma {:induction false} SplitLine(line: string, rest: string)
    requires '\n' !in line
    ensures Split(line + "\n" + rest) == [line] + Split(rest)
    decreases |line|
  {
    if line != [] {
      SplitLine(line[1..], rest);
      var s := line + "\n" + rest;
      assert s[0] == line[0] && s[0] != '\n';
      assert s[1..] == line[1..] + "\n" + rest;
      assert [line[0]] + line[1..] == line;
    } else {
      assert (line + "\n" + rest)[1..] == rest;
    }
  }

  /** Joined lines split back into those lines and the empty text after the last line break. */
  lemma SplitJoined(lines: seq<string>)
    requires forall k :: 0 <= k < |lines| ==> '\n' !in lines[k]
    ensures Split(Join(lines)) == lines + [""]
  {
    SplitJoin(lines, "");
    assert Join(lines) + "" == Join(lines);
  }

  lemma JoinTail(lines: seq<string>, tail: string)
    requires lines != []
    ensures Join(lines) + tail == lines[0] + "\n" + (Join(lines[1..]) + tail)
  {
    JoinCons(lines[0], lines[1..]);
    assert [lines[0]] + lines[1..] == lines;
    ConcatAssoc(lines[0] + "\n", Join(lines[1..]), tail);
  }

  /** Splitting joined lines gives the lines back, provided none of them holds a '\n'. */
  lemma {:induction false} SplitJoin(lines: seq<string>, tail: string)
    requires forall k :: 0 <= k < |lines| ==> '\n' !in lines[k]
    ensures Split(Join(lines) + tail) == lines + Split(tail)
    decreases |lines|
  {
    if lines != [] {
      var more := lines[1..];
      JoinTail(lines, tail);
      SplitLine(lines[0], Join(more) + tail);
      assert forall k :: 0 <= k < |more| ==> more[k] == lines[k + 1];
      SplitJoin(more, tail);
      assert [lines[0]] + more == lines;
      ConcatAssoc([lines[0]], more, Split(tail));
    } else {
      assert Join(lines) + tail == tail;
    }
  }
}
