module SplitterExample {
  import opened Splitter

  /** The four pages of issue `x`, numbered `001`. */
  function Issue(x: string, year: int): seq<LogRow> {
    [LogRow(year, 1, x + "_001_01.jpg"), LogRow(year, 2, x + "_001_02.jpg"),
     LogRow(year, 3, x + "_001_03.jpg"), LogRow(year, 4, x + "_001_04.jpg")]
  }

  lemma IssueKeys(x: string, year: int)
    requires |x| == 10
    ensures forall r :: r in Issue(x, year) ==> Key(r.filename) == x && r.year == year && 1 <= r.page <= 4
  {
    assert (x + "_001_01.jpg")[..10] == x;
    assert (x + "_001_02.jpg")[..10] == x;
    assert (x + "_001_03.jpg")[..10] == x;
    assert (x + "_001_04.jpg")[..10] == x;
  }

  lemma IssueKeysAt(x: string, year: int)
    requires |x| == 10
    ensures forall i :: 0 <= i < |Issue(x, year)| ==> Key(Issue(x, year)[i].filename) == x
  {
    IssueKeys(x, year);
    forall i | 0 <= i < |Issue(x, year)| ensures Key(Issue(x, year)[i].filename) == x {
      assert Issue(x, year)[i] in Issue(x, year);
    }
  }

  lemma {:induction false} SameKeyCount(rows: seq<LogRow>, k0: string, key: string)
    requires forall i :: 0 <= i < |rows| ==> Key(rows[i].filename) == k0
    ensures KeyCount(rows, key) == if key == k0 then |rows| else 0
  {
    if rows != [] {
      var init, r := rows[..|rows| - 1], rows[|rows| - 1];
      SameKeyCount(init, k0, key);
      assert rows == init + [r];
      KeyCountAppend(init, r, key);
    }
  }

  /** The last element of `a + b` is that of `b`, and what precedes it is
      `a` followed by the rest of `b`. */
  lemma DropLast<T>(a: seq<T>, b: seq<T>)
    requires b != []
    ensures (a + b)[..|a + b| - 1] == a + b[..|b| - 1] && (a + b)[|a + b| - 1] == b[|b| - 1]
  {
  }

  lemma {:induction false} KeyCountConcat(a: seq<LogRow>, b: seq<LogRow>, key: string)
    ensures KeyCount(a + b, key) == KeyCount(a, key) + KeyCount(b, key)
    decreases |b|
  {
    if b == [] {
      assert a + b == a;
    } else {
      var init, r := b[..|b| - 1], b[|b| - 1];
      KeyCountConcat(a, init, key);
      DropLast(a, b);
      DropLast([], b);
      assert [] + b == b;
    }
  }

  lemma {:induction false} YearRowsAll(t: seq<LogRow>, year: int)
    requires forall i :: 0 <= i < |t| ==> t[i].year == year && 1 <= t[i].page <= 4
    ensures YearRows(t, year) == t
  {
    if t != [] {
      var init, r := t[..|t| - 1], t[|t| - 1];
      YearRowsAll(init, year);
      assert YearRows(t, year) == init + [r];
      assert t == init + [r];
    }
  }

  lemma {:induction false} FourOfAll(all: seq<LogRow>, rest: seq<LogRow>)
    requires forall i :: 0 <= i < |rest| ==> KeyCount(all, Key(rest[i].filename)) == 4
    ensures FourOf(all, rest) == rest
  {
    if rest != [] {
      var init, r := rest[..|rest| - 1], rest[|rest| - 1];
      FourOfAll(all, init);
      assert KeyCount(all, Key(r.filename)) == 4;
      assert FourOf(all, rest) == init + [r];
      assert rest == init + [r];
    }
  }

  /** Three issues of four pages each: every row is kept. */
  lemma ThreeIssuesKept(x: string, y: string, z: string, year: int)
    requires |x| == |y| == |z| == 10 && x != y && x != z && y != z
    ensures var t := Issue(x, year) + Issue(y, year) + Issue(z, year);
      Kept(YearRows(t, year)) == t
  {
    var a, b, c := Issue(x, year), Issue(y, year), Issue(z, year);
    var t := a + b + c;
    IssueKeys(x, year); IssueKeys(y, year); IssueKeys(z, year);
    IssueKeysAt(x, year); IssueKeysAt(y, year); IssueKeysAt(z, year);
    forall i | 0 <= i < |t| ensures t[i].year == year && 1 <= t[i].page <= 4 {
      assert t[i] in t;
    }
    YearRowsAll(t, year);
    forall i | 0 <= i < |t| ensures KeyCount(t, Key(t[i].filename)) == 4 {
      assert t[i] in t;
      var key := Key(t[i].filename);
      KeyCountConcat(a + b, c, key);
      KeyCountConcat(a, b, key);
      SameKeyCount(a, x, key);
      SameKeyCount(b, y, key);
      SameKeyCount(c, z, key);
    }
    FourOfAll(t, t);
  }

  /** Their keys are the three issues. */
  lemma ThreeIssuesKeys(x: string, y: string, z: string, year: int)
    requires |x| == |y| == |z| == 10
    ensures Keys(Issue(x, year) + Issue(y, year) + Issue(z, year)) == {x, y, z}
  {
    var t := Issue(x, year) + Issue(y, year) + Issue(z, year);
    IssueKeys(x, year); IssueKeys(y, year); IssueKeys(z, year);
    forall i | 0 <= i < |t| ensures Key(t[i].filename) in {x, y, z} {
      assert t[i] in t;
    }
    assert Key(t[0].filename) == x by { assert t[0] in Issue(x, year); }
    assert Key(t[4].filename) == y by { assert t[4] in Issue(y, year); }
    assert Key(t[8].filename) == z by { assert t[8] in Issue(z, year); }
  }

  /** `sample(n=3)` draws rows, not issues: three rows of one issue are a
      valid draw, and then that issue goes to train, val and test alike. */
  lemma IssueMayRepeat(x: string, y: string, z: string, year: int)
    requires |x| == |y| == |z| == 10 && x != y && x != z && y != z
    ensures var t := Issue(x, year) + Issue(y, year) + Issue(z, year);
      && Kept(YearRows(t, year)) == t
      && Eligible(t) && ValidPick(t, Pick(0, 1, 2))
      && Issues(t, Pick(0, 1, 2)) == [x, x, x]
  {
    ThreeIssuesKept(x, y, z, year);
    ThreeIssuesKeys(x, y, z, year);
    ThreeDistinct(x, y, z);
    FirstDrawn(x, y, z, year);
  }

  lemma ThreeDistinct(x: string, y: string, z: string)
    requires x != y && x != z && y != z
    ensures |{x, y, z}| == 3
  {
    assert {x, y, z} == {x, y} + {z};
    assert {x, y} == {x} + {y};
  }

  /** The first three rows are pages of the first issue. */
  lemma FirstDrawn(x: string, y: string, z: string, year: int)
    requires |x| == 10
    ensures var t := Issue(x, year) + Issue(y, year) + Issue(z, year);
      && |t| == 12 && Key(t[0].filename) == x && Key(t[1].filename) == x && Key(t[2].filename) == x
  {
    var t := Issue(x, year) + Issue(y, year) + Issue(z, year);
    IssueKeysAt(x, year);
    assert t[..4] == Issue(x, year);
  }
}
