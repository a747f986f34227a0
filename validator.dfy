/** The canonical-name check of `check_filenames` (src/utils/parser.py:185-205):
    the pattern

      ^(19[4-6][0-9]|197[0-9]|198[0-9]|199[0-1])-(0[1-9]|1[0-2])-(0[1-9]|[1-2][0-9]|3[0-1])_([0-3][0-9][0-9])_(0[1-4])\.(jpg|png)$

    applied with `re.match`, and the count of the names it rejects. The
    pattern is case-sensitive, and its `$` also matches before a newline that
    ends the name. */
module Validator {
  import opened Text
  import opened Normalizer

  predicate Between(c: char, lo: char, hi: char) { lo <= c <= hi }

  /** `19[4-6][0-9]|197[0-9]|198[0-9]|199[0-1]` */
  predicate YearAlt(y: string)
    requires |y| == 4
  {
    || (y[0] == '1' && y[1] == '9' && Between(y[2], '4', '6') && IsDigit(y[3]))
    || (y[0] == '1' && y[1] == '9' && y[2] == '7' && IsDigit(y[3]))
    || (y[0] == '1' && y[1] == '9' && y[2] == '8' && IsDigit(y[3]))
    || (y[0] == '1' && y[1] == '9' && y[2] == '9' && Between(y[3], '0', '1'))
  }

  /** `0[1-9]|1[0-2]` */
  predicate MonthAlt(m: string)
    requires |m| == 2
  {
    (m[0] == '0' && Between(m[1], '1', '9')) || (m[0] == '1' && Between(m[1], '0', '2'))
  }

  /** `0[1-9]|[1-2][0-9]|3[0-1]` */
  predicate DayAlt(d: string)
    requires |d| == 2
  {
    || (d[0] == '0' && Between(d[1], '1', '9'))
    || (Between(d[0], '1', '2') && IsDigit(d[1]))
    || (d[0] == '3' && Between(d[1], '0', '1'))
  }

  /** `[0-3][0-9][0-9]` */
  predicate NumberAlt(n: string)
    requires |n| == 3
  {
    Between(n[0], '0', '3') && IsDigit(n[1]) && IsDigit(n[2])
  }

  /** `0[1-4]` */
  predicate PageAlt(p: string)
    requires |p| == 2
  {
    p[0] == '0' && Between(p[1], '1', '4')
  }

  /** `jpg|png` */
  predicate ExtAlt(e: string) {
    e == "jpg" || e == "png"
  }

  /** `pattern.match(name)`: every piece of the pattern has a fixed length,
      so each one sits at a fixed position, and `$` accepts the end of the
      name or a final newline. */
  predicate Accepts(f: string) {
    && (|f| == 21 || (|f| == 22 && f[21] == '\n'))
    && YearAlt(f[0..4]) && f[4] == '-'
    && MonthAlt(f[5..7]) && f[7] == '-'
    && DayAlt(f[8..10]) && f[10] == '_'
    && NumberAlt(f[11..14]) && f[14] == '_'
    && PageAlt(f[15..17]) && f[17] == '.'
    && ExtAlt(f[18..21])
  }

  /** A name whose fields have the shape the normaliser gives them: digit
      strings and an extension of word characters. */
  predicate Shaped(n: Name) {
    && IsNumber(n.year) && IsNumber(n.month) && IsNumber(n.day)
    && IsNumber(n.number) && IsNumber(n.page) && AllIn(n.extension, Word)
  }

  /** What the pattern means: a year from 1940 to 1991, a month from 01 to
      12, a day from 01 to 31, a three-digit number up to 399, a page from
      01 to 04 and the extension `jpg` or `png`. */
  predicate Canonical(n: Name) {
    && |n.year| == 4 && AllIn(n.year, Digit) && 1940 <= Value(n.year) <= 1991
    && |n.month| == 2 && AllIn(n.month, Digit) && 1 <= Value(n.month) <= 12
    && |n.day| == 2 && AllIn(n.day, Digit) && 1 <= Value(n.day) <= 31
    && |n.number| == 3 && AllIn(n.number, Digit) && Value(n.number) <= 399
    && |n.page| == 2 && AllIn(n.page, Digit) && 1 <= Value(n.page) <= 4
    && (n.extension == "jpg" || n.extension == "png")
  }

  /** The fields at the fixed positions of a 21-character name. */
  function FieldsOf(f: string): Name
    requires |f| >= 21
  {
    Name(f[0..4], f[11..14], f[8..10], f[5..7], f[15..17], f[18..21])
  }

  lemma Value2(s: string)
    requires |s| == 2 && AllIn(s, Digit)
    ensures Value(s) == 10 * DigitValue(s[0]) + DigitValue(s[1])
  {
    var h := s[..1];
    assert h[..0] == [] && h[0] == s[0];
    assert Value(h) == DigitValue(s[0]);
  }

  lemma Value3(s: string)
    requires |s| == 3 && AllIn(s, Digit)
    ensures Value(s) == 100 * DigitValue(s[0]) + 10 * DigitValue(s[1]) + DigitValue(s[2])
  {
    Value2(s[..2]);
  }

  lemma Value4(s: string)
    requires |s| == 4 && AllIn(s, Digit)
    ensures Value(s) == 1000 * DigitValue(s[0]) + 100 * DigitValue(s[1]) + 10 * DigitValue(s[2]) + DigitValue(s[3])
  {
    Value3(s[..3]);
  }

  /** Each alternation accepts exactly the digit strings of its range. */
  lemma YearAltRange(y: string)
    requires |y| == 4
    ensures YearAlt(y) <==> AllIn(y, Digit) && 1940 <= Value(y) <= 1991
  {
    if AllIn(y, Digit) {
      Value4(y);
    }
  }

  lemma MonthAltRange(m: string)
    requires |m| == 2
    ensures MonthAlt(m) <==> AllIn(m, Digit) && 1 <= Value(m) <= 12
  {
    if AllIn(m, Digit) {
      Value2(m);
    }
  }

  lemma DayAltRange(d: string)
    requires |d| == 2
    ensures DayAlt(d) <==> AllIn(d, Digit) && 1 <= Value(d) <= 31
  {
    if AllIn(d, Digit) {
      Value2(d);
    }
  }

  lemma NumberAltRange(n: string)
    requires |n| == 3
    ensures NumberAlt(n) <==> AllIn(n, Digit) && Value(n) <= 399
  {
    if AllIn(n, Digit) {
      Value3(n);
    }
  }

  lemma PageAltRange(p: string)
    requires |p| == 2
    ensures PageAlt(p) <==> AllIn(p, Digit) && 1 <= Value(p) <= 4
  {
    if AllIn(p, Digit) {
      Value2(p);
    }
  }

  /** The pattern accepts a name exactly when its fields are canonical, and
      then the name is the file name of those fields, possibly followed by a
      newline. */
  lemma AcceptsMeans(f: string)
    ensures Accepts(f) <==>
      && (|f| == 21 || (|f| == 22 && f[21] == '\n')) && Canonical(FieldsOf(f))
      && f[4] == '-' && f[7] == '-' && f[10] == '_' && f[14] == '_' && f[17] == '.'
    ensures Accepts(f) ==> f[..21] == FileName(FieldsOf(f))
  {
    if |f| >= 21 {
      YearAltRange(f[0..4]);
      MonthAltRange(f[5..7]);
      DayAltRange(f[8..10]);
      NumberAltRange(f[11..14]);
      PageAltRange(f[15..17]);
      if Accepts(f) {
        FileNameAt(FieldsOf(f), f[..21]);
      }
    }
  }

  /** A 21-character name with the separators at their places is the file
      name of its fields. */
  lemma FileNameAt(n: Name, g: string)
    requires |g| == 21 && n == FieldsOf(g)
    requires g[4] == '-' && g[7] == '-' && g[10] == '_' && g[14] == '_' && g[17] == '.'
    ensures g == FileName(n)
  {
    var f := FileName(n);
    assert |f| == 21;
    forall i | 0 <= i < 21 ensures f[i] == g[i] {
      if i < 4 {
      } else if i < 5 {
      } else if i < 7 {
      } else if i < 8 {
      } else if i < 10 {
      } else if i < 11 {
      } else if i < 14 {
      } else if i < 15 {
      } else if i < 17 {
      } else if i < 18 {
      }
    }
  }

  /** A run of digits ended by a non-digit `c` is read back at the same
      length. */
  lemma FieldEnds(u: string, g: string, c: char, rest: string, k: nat)
    requires u == g + ([c] + rest) && AllIn(g, Digit) && !IsDigit(c)
    requires k < |u| && AllIn(u[..k], Digit) && !IsDigit(u[k])
    ensures |g| == k && u[..k] == g && u[k + 1..] == rest
  {
    assert u[..|g|] == g && u[|g|] == c;
    SpanStops(u, Digit, |g|);
    SpanStops(u, Digit, k);
    assert u[|g| + 1..] == rest;
  }

  /** `FileName` with its concatenations grouped from the right. */
  lemma FileNameNested(n: Name)
    ensures FileName(n) == n.year + ("-" + (n.month + ("-" + (n.day + ("_" + (n.number + ("_" + (n.page + ("." + n.extension)))))))))
  {
  }

  /** The same, for the text from position `off` of `f`. */
  lemma Peel(f: string, off: nat, g: string, c: char, rest: string, k: nat)
    requires off <= |f| && f[off..] == g + ([c] + rest) && AllIn(g, Digit) && !IsDigit(c)
    requires off + k < |f| && AllIn(f[off..off + k], Digit) && !IsDigit(f[off + k])
    ensures |g| == k && f[off..off + k] == g && f[off + k + 1..] == rest
  {
    var u := f[off..];
    assert u[..k] == f[off..off + k] && u[k] == f[off + k];
    FieldEnds(u, g, c, rest, k);
    assert u[k + 1..] == f[off + k + 1..];
  }

  /** Where the pattern wants digits, non-digits and the end. */
  predicate Layout(f: string) {
    && (|f| == 21 || (|f| == 22 && f[21] == '\n'))
    && AllIn(f[0..4], Digit) && !IsDigit(f[4])
    && AllIn(f[5..7], Digit) && !IsDigit(f[7])
    && AllIn(f[8..10], Digit) && !IsDigit(f[10])
    && AllIn(f[11..14], Digit) && !IsDigit(f[14])
    && AllIn(f[15..17], Digit) && !IsDigit(f[17])
  }

  lemma AcceptsLayout(f: string)
    requires Accepts(f)
    ensures Layout(f)
  {
    AcceptsMeans(f);
  }

  /** A file name of digit fields with that layout has exactly those fields
      at the pattern's positions. */
  lemma LayoutFields(n: Name)
    requires Shaped(n) && Layout(FileName(n))
    ensures FieldsOf(FileName(n)) == n
  {
    var f := FileName(n);
    var t5 := n.page + ("." + n.extension);
    var t4 := n.number + ("_" + t5);
    LayoutDate(n);
    Peel(f, 11, n.number, '_', t5, 3);
    Peel(f, 15, n.page, '.', n.extension, 2);
    assert |f| == 21;
  }

  /** The date part of `LayoutFields`: year, month and day, and what follows. */
  lemma LayoutDate(n: Name)
    requires Shaped(n) && Layout(FileName(n))
    ensures var f := FileName(n);
      && f[0..4] == n.year && f[5..7] == n.month && f[8..10] == n.day
      && f[11..] == n.number + ("_" + (n.page + ("." + n.extension)))
  {
    var f := FileName(n);
    var t4 := n.number + ("_" + (n.page + ("." + n.extension)));
    var t3 := n.day + ("_" + t4);
    var t2 := n.month + ("-" + t3);
    FileNameNested(n);
    Peel(f, 0, n.year, '-', t2, 4);
    Peel(f, 5, n.month, '-', t3, 2);
    Peel(f, 8, n.day, '_', t4, 2);
  }

  /** The file name of a normalised link passes the pattern exactly when its
      fields are canonical. */
  lemma NameAccepted(n: Name)
    requires Shaped(n)
    ensures Accepts(FileName(n)) <==> Canonical(n)
  {
    var f := FileName(n);
    AcceptsMeans(f);
    if Accepts(f) {
      AcceptsLayout(f);
      LayoutFields(n);
    }
    if Canonical(n) {
      assert |f| == 21 && FieldsOf(f) == n;
    }
  }

  /** How many of the listed names the pattern rejects. */
  function Rejected(names: seq<string>): nat {
    if names == [] then 0
    else Rejected(names[..|names| - 1]) + (if Accepts(names[|names| - 1]) then 0 else 1)
  }

  /** The positions of the listing whose names the pattern rejects. */
  function RejectedAt(names: seq<string>): set<nat> {
    set i: nat | i < |names| && !Accepts(names[i])
  }

  /** `check_filenames`: one pass over the directory listing, counting the
      names that do not match. */
  method CheckFilenames(names: seq<string>) returns (count: nat)
    ensures count == Rejected(names)
  {
    count := 0;
    for i := 0 to |names|
      invariant count == Rejected(names[..i])
    {
      assert names[..i + 1][..i] == names[..i];
      if !Accepts(names[i]) {
        count := count + 1;
      }
    }
    assert names[..|names|] == names;
  }

  /** The count is the number of listed names the pattern rejects; it is
      zero exactly when every name matches. */
  lemma {:induction false} RejectedCounts(names: seq<string>)
    ensures Rejected(names) == |RejectedAt(names)| <= |names|
    ensures Rejected(names) == 0 <==> forall i :: 0 <= i < |names| ==> Accepts(names[i])
  {
    if names != [] {
      var k := |names| - 1;
      var init := names[..k];
      RejectedCounts(init);
      assert forall i :: 0 <= i < k ==> init[i] == names[i];
      if Accepts(names[k]) {
        assert RejectedAt(names) == RejectedAt(init);
      } else {
        assert RejectedAt(names) == RejectedAt(init) + {k};
      }
    }
  }
}
