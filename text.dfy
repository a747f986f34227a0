/** String helpers with the meaning Python gives them on ASCII text:
    the character classes of the `re` module, `str.lower`, `str.zfill`,
    `str.strip`, `str.lstrip`, `str.split(',')[-1]` and `str(n)`. */
module Text {

  datatype Option<T> = None | Some(value: T)

  /** The classes a greedy `\d+`, `\w+`, `.*` or a whitespace strip consumes. */
  datatype CharClass = Digit | Word | NotNewline | Space

  predicate IsDigit(c: char) { '0' <= c <= '9' }

  /** Membership in a class; `\w` is `[A-Za-z0-9_]` on ASCII, `.` is anything
      but a newline, and whitespace is what `str.isspace` accepts below 128
      (tab through carriage return, the four separators 0x1c-0x1f, blank). */
  predicate InClass(c: char, cls: CharClass) {
    match cls
    case Digit => IsDigit(c)
    case Word => IsDigit(c) || 'a' <= c <= 'z' || 'A' <= c <= 'Z' || c == '_'
    case NotNewline => c != '\n'
    case Space => 9 <= c as int <= 13 || 28 <= c as int <= 32
  }

  predicate AllIn(s: string, cls: CharClass) {
    forall i :: 0 <= i < |s| ==> InClass(s[i], cls)
  }

  /** What `\d+` matches: a non-empty run of digits. */
  predicate IsNumber(s: string) { |s| > 0 && AllIn(s, Digit) }

  /** Length of the longest prefix of `s` inside `cls`. */
  function Span(s: string, cls: CharClass): (n: nat)
    ensures n <= |s| && AllIn(s[..n], cls)
    ensures n < |s| ==> !InClass(s[n], cls)
  {
    if s != [] && InClass(s[0], cls) then
      var n := 1 + Span(s[1..], cls);
      assert s[..n] == [s[0]] + s[1..][..n - 1];
      n
    else 0
  }

  /** A prefix inside the class is never longer than the span. */
  lemma SpanCovers(s: string, cls: CharClass, n: nat)
    requires n <= |s| && AllIn(s[..n], cls)
    ensures n <= Span(s, cls)
  {
  }

  /** A prefix inside the class followed by a character outside it is the
      span. */
  lemma {:induction false} SpanStops(s: string, cls: CharClass, n: nat)
    requires n < |s| && AllIn(s[..n], cls) && !InClass(s[n], cls)
    ensures Span(s, cls) == n
    decreases n
  {
    if n > 0 {
      assert s[..n][0] == s[0];
      assert s[1..][..n - 1] == s[..n][1..];
      SpanStops(s[1..], cls, n - 1);
    }
  }

  /** Every prefix of the span lies in the class. */
  lemma SpanPrefix(s: string, cls: CharClass, k: nat)
    requires k <= Span(s, cls)
    ensures AllIn(s[..k], cls)
  {
    var n := Span(s, cls);
    assert forall i :: 0 <= i < k ==> s[..k][i] == s[..n][i];
  }

  /** ASCII `str.lower` on one character. */
  function Lower(c: char): char {
    if 'A' <= c <= 'Z' then (c as int + 32) as char else c
  }

  function LowerStr(s: string): (r: string)
    ensures |r| == |s| && forall i :: 0 <= i < |s| ==> r[i] == Lower(s[i])
  {
    seq(|s|, i requires 0 <= i < |s| => Lower(s[i]))
  }

  function DigitValue(c: char): nat requires IsDigit(c) { c as int - '0' as int }

  /** The number a run of decimal digits denotes (`int(s)`). */
  function Value(s: string): nat
    requires AllIn(s, Digit)
  {
    if s == [] then 0 else 10 * Value(s[..|s| - 1]) + DigitValue(s[|s| - 1])
  }

  function Zeros(n: nat): (r: string)
    ensures |r| == n && forall i :: 0 <= i < n ==> r[i] == '0'
  {
    seq(n, _ => '0')
  }

  /** Python's `str.zfill(width)`: left-pads with '0' to `width`, keeping a
      leading sign in front; a string at least `width` long is unchanged. */
  function ZFill(s: string, width: nat): (r: string)
    ensures |r| == if |s| >= width then |s| else width
    ensures AllIn(s, Digit) ==> r == Zeros(|r| - |s|) + s
  {
    if |s| >= width then
      assert s == Zeros(0) + s;
      s
    else if |s| > 0 && (s[0] == '+' || s[0] == '-') then [s[0]] + Zeros(width - |s|) + s[1..]
    else Zeros(width - |s|) + s
  }

  /** Leading zeros do not change the value of a digit string. */
  lemma {:induction false} ZerosKeepValue(k: nat, s: string)
    requires AllIn(s, Digit)
    ensures AllIn(Zeros(k) + s, Digit) && Value(Zeros(k) + s) == Value(s)
  {
    var z := Zeros(k) + s;
    assert AllIn(z, Digit);
    if s == [] {
      assert z == Zeros(k);
      if k > 0 {
        assert z[..|z| - 1] == Zeros(k - 1) + [];
        ZerosKeepValue(k - 1, []);
      }
    } else {
      assert z[..|z| - 1] == Zeros(k) + s[..|s| - 1];
      ZerosKeepValue(k, s[..|s| - 1]);
    }
  }

  /** `zfill` on a digit string: at least `width` digits, ending in the
      original digits, preceded only by zeros, denoting the same number. */
  lemma ZFillDigits(s: string, width: nat)
    requires AllIn(s, Digit)
    ensures var r := ZFill(s, width);
      && AllIn(r, Digit)
      && |r| == (if |s| >= width then |s| else width)
      && r[|r| - |s|..] == s
      && (forall i :: 0 <= i < |r| - |s| ==> r[i] == '0')
      && Value(r) == Value(s)
  {
    var r := ZFill(s, width);
    ZerosKeepValue(|r| - |s|, s);
  }

  /** Python's `str.lstrip(c)` for a single character `c`. */
  function LStrip(s: string, c: char): (r: string)
    ensures |r| <= |s| && r == s[|s| - |r|..]
    ensures forall i :: 0 <= i < |s| - |r| ==> s[i] == c
    ensures r == [] || r[0] != c
  {
    if s != [] && s[0] == c then LStrip(s[1..], c) else s
  }

  /** Drops trailing characters of class `cls`. */
  function TrimEnd(s: string, cls: CharClass): (r: string)
    ensures |r| <= |s| && r == s[..|r|]
    ensures forall i :: |r| <= i < |s| ==> InClass(s[i], cls)
    ensures r == [] || !InClass(r[|r| - 1], cls)
  {
    if s != [] && InClass(s[|s| - 1], cls) then TrimEnd(s[..|s| - 1], cls) else s
  }

  /** Python's `str.strip()`: the slice of `s` left when the whitespace at
      both ends is cut off, so it neither starts nor ends with whitespace. */
  function Strip(s: string): (r: string)
    ensures exists i, j :: 0 <= i <= j <= |s| && r == s[i..j] && AllIn(s[..i], Space) && AllIn(s[j..], Space)
    ensures r == [] || (!InClass(r[0], Space) && !InClass(r[|r| - 1], Space))
  {
    var i := Span(s, Space);
    var t := s[i..];
    var r := TrimEnd(t, Space);
    assert r != [] ==> r[0] == t[0];
    assert r == s[i..i + |r|];
    r
  }

  /** Stripping a line whose text neither starts nor ends with whitespace
      removes just its newline. */
  lemma StripLine(core: string)
    requires core != [] && !InClass(core[0], Space) && !InClass(core[|core| - 1], Space)
    ensures Strip(core + "\n") == core
  {
    var s := core + "\n";
    assert s[0] == core[0];
    assert s[..|s| - 1] == core;
  }

  /** Python's `s.split(c)` for a one-character separator: the pieces
      between the separators, never an empty list. */
  function Split(s: string, c: char): (r: seq<string>)
    ensures |r| > 0
  {
    if s == [] then [[]]
    else
      var rest := Split(s[1..], c);
      if s[0] == c then [[]] + rest else [[s[0]] + rest[0]] + rest[1..]
  }

  /** `c.join(ps)` */
  function Join(ps: seq<string>, c: char): string
    requires |ps| > 0
  {
    if |ps| == 1 then ps[0] else ps[0] + [c] + Join(ps[1..], c)
  }

  /** No piece of a list holds the separator. */
  predicate Clean(ps: seq<string>, c: char) {
    forall i :: 0 <= i < |ps| ==> c !in ps[i]
  }

  /** Splitting and joining again gives back the text, and no piece holds
      the separator. */
  lemma {:induction false} JoinSplit(s: string, c: char)
    ensures Join(Split(s, c), c) == s && Clean(Split(s, c), c)
    decreases |s|
  {
    if s != [] {
      var rest := Split(s[1..], c);
      JoinSplit(s[1..], c);
      if s[0] == c {
        assert ([[]] + rest)[1..] == rest;
      } else {
        var r := [[s[0]] + rest[0]] + rest[1..];
        assert r[1..] == rest[1..];
        if |rest| > 1 {
          assert rest == [rest[0]] + rest[1..];
          assert Join(rest, c) == rest[0] + [c] + Join(rest[1..], c);
        }
      }
    }
  }

  /** Joining pieces free of the separator and splitting again gives back
      the pieces. */
  lemma {:induction false} SplitJoin(ps: seq<string>, c: char)
    requires |ps| > 0 && Clean(ps, c)
    ensures Split(Join(ps, c), c) == ps
    decreases |ps|, |ps[0]|
  {
    if |ps| == 1 {
      SplitPiece(ps[0], c);
    } else {
      var p := ps[0];
      var tail := Join(ps[1..], c);
      if p == [] {
        assert Join(ps, c) == [c] + tail;
        assert Join(ps, c)[1..] == tail;
        SplitJoin(ps[1..], c);
        assert ps == [[]] + ps[1..];
      } else {
        var ps' := [p[1..]] + ps[1..];
        assert ps'[1..] == ps[1..];
        assert Clean(ps', c) by {
          assert forall i :: 1 <= i < |ps'| ==> ps'[i] == ps[i];
          assert c !in p[1..] by {
            assert forall i :: 0 <= i < |p[1..]| ==> p[1..][i] == p[i + 1];
          }
        }
        assert Join(ps, c)[1..] == Join(ps', c);
        SplitJoin(ps', c);
        assert [p[0]] + p[1..] == p;
      }
    }
  }

  /** A text without the separator is a single piece. */
  lemma {:induction false} SplitPiece(s: string, c: char)
    requires c !in s
    ensures Split(s, c) == [s]
    decreases |s|
  {
    if s != [] {
      assert c !in s[1..] by {
        assert forall i :: 0 <= i < |s[1..]| ==> s[1..][i] == s[i + 1];
      }
      SplitPiece(s[1..], c);
      assert [s[0]] + s[1..] == s;
    }
  }

  function DigitChar(d: nat): (c: char)
    requires d < 10
    ensures IsDigit(c) && DigitValue(c) == d
  {
    ('0' as int + d) as char
  }

  /** Python's `str(n)` for a natural number: its decimal digits, which read
      back as `n`, with no leading zero except in `"0"` itself. */
  function NatToString(n: nat): (r: string)
    ensures IsNumber(r) && Value(r) == n
    ensures |r| == 1 || r[0] != '0'
  {
    if n < 10 then [DigitChar(n)]
    else
      var r := NatToString(n / 10) + [DigitChar(n % 10)];
      assert r[..|r| - 1] == NatToString(n / 10);
      r
  }
}
