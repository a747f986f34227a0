/** `create_datasets` (src/utils/data.py:11-44): for every year, the issues of
    the download log with exactly four pages are found, three entries of them
    are drawn, and the pages of the drawn issues are copied from the raw data
    directory into the train, val and test directories. The draw is an
    input; directories are maps from file names to contents. */
module Splitter {

  /** One row of the download log as the split reads it. */
  datatype LogRow = LogRow(year: int, page: int, filename: string)

  /** The rows of one year with a page from 1 to 4, in table order. */
  function YearRows(table: seq<LogRow>, year: int): seq<LogRow> {
    if table == [] then []
    else
      var r := table[|table| - 1];
      YearRows(table[..|table| - 1], year) + if r.year == year && 1 <= r.page <= 4 then [r] else []
  }

  /** `filename.str.slice(0, 10)`: the issue a page belongs to. */
  function Key(f: string): string {
    if |f| <= 10 then f else f[..10]
  }

  /** How many rows belong to the issue `key`. */
  function KeyCount(rows: seq<LogRow>, key: string): nat {
    if rows == [] then 0
    else KeyCount(rows[..|rows| - 1], key) + if Key(rows[|rows| - 1].filename) == key then 1 else 0
  }

  /** The rows among `rest` whose issue has exactly four rows in `all`. */
  function FourOf(all: seq<LogRow>, rest: seq<LogRow>): seq<LogRow> {
    if rest == [] then []
    else
      var r := rest[|rest| - 1];
      FourOf(all, rest[..|rest| - 1]) + if KeyCount(all, Key(r.filename)) == 4 then [r] else []
  }

  /** The rows of the issues with exactly four rows, in table order. */
  function Kept(rows: seq<LogRow>): seq<LogRow> {
    FourOf(rows, rows)
  }

  /** The distinct issues of some rows. */
  function Keys(rows: seq<LogRow>): set<string> {
    set i | 0 <= i < |rows| :: Key(rows[i].filename)
  }

  /** Whether a year has enough issues to fill the three splits. */
  predicate Eligible(kept: seq<LogRow>) {
    |Keys(kept)| >= 3
  }

  /** The three rows `sample(n=3)` draws from the kept rows of a year, by
      position. */
  datatype Pick = Pick(first: nat, second: nat, third: nat)

  /** Three distinct positions of the kept rows. */
  predicate ValidPick(kept: seq<LogRow>, p: Pick) {
    && p.first < |kept| && p.second < |kept| && p.third < |kept|
    && p.first != p.second && p.first != p.third && p.second != p.third
  }

  /** The issues of the drawn rows. */
  function Issues(kept: seq<LogRow>, p: Pick): seq<string>
    requires ValidPick(kept, p)
  {
    [Key(kept[p.first].filename), Key(kept[p.second].filename), Key(kept[p.third].filename)]
  }

  /** The three data set directories, in the order the issues are dealt. */
  datatype Split = Train | Val | Test

  const Splits: seq<Split> := [Train, Val, Test]

  /** The contents of a file. */
  type Content = seq<bv8>

  type Dir = map<string, Content>

  /** The contents of the three data set directories. */
  datatype Dirs = Dirs(train: Dir, val: Dir, test: Dir)

  function DirOf(d: Dirs, s: Split): Dir {
    match s
    case Train => d.train
    case Val => d.val
    case Test => d.test
  }

  /** `d` with the file `name` of directory `s` holding `content`. */
  function Put(d: Dirs, s: Split, name: string, content: Content): Dirs {
    match s
    case Train => d.(train := d.train[name := content])
    case Val => d.(val := d.val[name := content])
    case Test => d.(test := d.test[name := content])
  }

  /** One `shutil.copy` of the raw file `name` into directory `split`. */
  datatype Copy = Copy(split: Split, name: string)

  /** The copies for one issue: the kept rows among the first `k` whose file
      name starts with the issue, in table order. */
  function IssueCopies(kept: seq<LogRow>, split: Split, issue: string, k: nat): seq<Copy>
    requires k <= |kept|
  {
    if k == 0 then []
    else
      IssueCopies(kept, split, issue, k - 1)
      + if issue <= kept[k - 1].filename then [Copy(split, kept[k - 1].filename)] else []
  }

  /** The copies for the first `d` of the drawn issues, the issue at
      position `i` going to the directory at position `i` of `Splits`. */
  function DealtCopies(kept: seq<LogRow>, issues: seq<string>, d: nat): seq<Copy>
    requires d <= |issues| <= |Splits|
  {
    if d == 0 then []
    else DealtCopies(kept, issues, d - 1) + IssueCopies(kept, Splits[d - 1], issues[d - 1], |kept|)
  }

  /** The copies made for one year: none when it has fewer than three
      issues with four pages. */
  function YearCopies(table: seq<LogRow>, year: int, p: Pick): seq<Copy>
    requires PickFits(table, year, p)
  {
    var kept := Kept(YearRows(table, year));
    if !Eligible(kept) then [] else DealtCopies(kept, Issues(kept, p), 3)
  }

  /** A draw is needed only for a year with enough issues, and then it is
      three distinct positions of the kept rows. */
  predicate PickFits(table: seq<LogRow>, year: int, p: Pick) {
    var kept := Kept(YearRows(table, year)); Eligible(kept) ==> ValidPick(kept, p)
  }

  /** The draw at position `i` fits year `startYear + i`. */
  predicate PickFitsAt(table: seq<LogRow>, startYear: int, picks: seq<Pick>, i: nat) {
    i < |picks| && PickFits(table, startYear + i, picks[i])
  }

  /** The draws fit the years they are made for. */
  predicate ValidPicks(table: seq<LogRow>, startYear: int, picks: seq<Pick>) {
    forall i: nat :: i < |picks| ==> PickFitsAt(table, startYear, picks, i)
  }

  /** What a sequence of copies leaves behind, and whether all of them
      succeeded: a missing raw file raises `FileNotFoundError`, which ends
      the run. */
  datatype Outcome = Outcome(dirs: Dirs, ok: bool)

  function Apply(d: Dirs, raw: Dir, cs: seq<Copy>): Outcome {
    if cs == [] then Outcome(d, true)
    else
      var o := Apply(d, raw, cs[..|cs| - 1]);
      var c := cs[|cs| - 1];
      if !o.ok then o
      else if c.name !in raw then Outcome(o.dirs, false)
      else Outcome(Put(o.dirs, c.split, c.name, raw[c.name]), true)
  }

  /** The copies of each year, year `startYear + i` at position `i`. */
  function Plan(table: seq<LogRow>, startYear: int, picks: seq<Pick>): seq<seq<Copy>>
    requires ValidPicks(table, startYear, picks)
  {
    seq(|picks|, i requires 0 <= i < |picks| =>
      assert PickFitsAt(table, startYear, picks, i); YearCopies(table, startYear + i, picks[i]))
  }

  /** The stretches of copies made one after the other, each on what the one
      before left, until a copy fails. */
  function ApplyEach(d: Dirs, raw: Dir, css: seq<seq<Copy>>): Outcome {
    if css == [] then Outcome(d, true)
    else
      var o := ApplyEach(d, raw, css[..|css| - 1]);
      if !o.ok then o else Apply(o.dirs, raw, css[|css| - 1])
  }

  /** The stretches of copies joined in order. */
  function Flatten(css: seq<seq<Copy>>): seq<Copy> {
    if css == [] then [] else Flatten(css[..|css| - 1]) + css[|css| - 1]
  }

  /** The file system the split works on: the raw data directory and the
      three data set directories. */
  class Datasets {
    var raw: Dir
    var train: Dir
    var val: Dir
    var test: Dir

    /** The directories as they are found; `os.makedirs(..., exist_ok=True)`
        keeps what they hold. */
    constructor(raw: Dir, train: Dir, val: Dir, test: Dir)
      ensures this.raw == raw && this.train == train && this.val == val && this.test == test
    {
      this.raw, this.train, this.val, this.test := raw, train, val, test;
    }

    function Current(): Dirs
      reads this
    {
      Dirs(train, val, test)
    }

    /** `shutil.copy` of one raw file into a data set directory; `false`
        when the raw file is missing. */
    method CopyFile(c: Copy) returns (ok: bool)
      modifies this
      ensures raw == old(raw)
      ensures ok == (c.name in raw)
      ensures Current() == if ok then Put(old(Current()), c.split, c.name, raw[c.name]) else old(Current())
    {
      if c.name !in raw {
        return false;
      }
      match c.split {
        case Train => train := train[c.name := raw[c.name]];
        case Val => val := val[c.name := raw[c.name]];
        case Test => test := test[c.name := raw[c.name]];
      }
      ok := true;
    }

    /** The pages of one issue copied into one data set directory. */
    method CopyIssue(kept: seq<LogRow>, split: Split, issue: string) returns (ok: bool)
      modifies this
      ensures raw == old(raw)
      ensures Outcome(Current(), ok) == Apply(old(Current()), raw, IssueCopies(kept, split, issue, |kept|))
    {
      ok := true;
      for k := 0 to |kept|
        invariant raw == old(raw)
        invariant Outcome(Current(), true) == Apply(old(Current()), raw, IssueCopies(kept, split, issue, k))
      {
        var f := kept[k].filename;
        IssueCopiesStep(kept, split, issue, k);
        if issue <= f {
          ApplyOne(old(Current()), raw, IssueCopies(kept, split, issue, k), Copy(split, f));
          ok := CopyFile(Copy(split, f));
          if !ok {
            IssueCopiesPrefix(kept, split, issue, k + 1, |kept|);
            ApplyStops(old(Current()), raw, IssueCopies(kept, split, issue, k + 1), IssueCopies(kept, split, issue, |kept|));
            return;
          }
        } else {
          assert IssueCopies(kept, split, issue, k) + [] == IssueCopies(kept, split, issue, k);
        }
      }
    }

    /** One year: filter, keep the issues with four pages, skip the year
        when there are fewer than three, deal the drawn issues to the three
        directories. */
    method CopyYear(table: seq<LogRow>, year: int, p: Pick) returns (ok: bool)
      requires PickFits(table, year, p)
      modifies this
      ensures raw == old(raw)
      ensures Outcome(Current(), ok) == Apply(old(Current()), raw, YearCopies(table, year, p))
    {
      var kept := Kept(YearRows(table, year));
      if |Keys(kept)| < 3 {
        return true;
      }
      var issues := Issues(kept, p);
      ok := true;
      for d := 0 to 3
        invariant raw == old(raw)
        invariant Outcome(Current(), true) == Apply(old(Current()), raw, DealtCopies(kept, issues, d))
      {
        ok := CopyIssue(kept, Splits[d], issues[d]);
        ApplyConcat(old(Current()), raw, DealtCopies(kept, issues, d), IssueCopies(kept, Splits[d], issues[d], |kept|));
        if !ok {
          DealtCopiesPrefix(kept, issues, d + 1, 3);
          ApplyStops(old(Current()), raw, DealtCopies(kept, issues, d + 1), DealtCopies(kept, issues, 3));
          return;
        }
      }
    }

    /** The whole split, years `startYear` to `endYear` in ascending order
        (year `startYear + i` at step `i`), with one draw per year; `false`
        when a copy failed, which ends it. */
    method CreateDatasets(table: seq<LogRow>, startYear: int, endYear: int, picks: seq<Pick>) returns (ok: bool)
      requires |picks| == if endYear < startYear then 0 else endYear - startYear + 1
      requires ValidPicks(table, startYear, picks)
      modifies this
      ensures raw == old(raw)
      ensures Outcome(Current(), ok) == ApplyEach(old(Current()), raw, Plan(table, startYear, picks))
    {
      ok := true;
      ghost var plan := Plan(table, startYear, picks);
      for i := 0 to |picks|
        invariant raw == old(raw)
        invariant Outcome(Current(), true) == ApplyEach(old(Current()), raw, plan[..i])
      {
        assert PickFitsAt(table, startYear, picks, i);
        ghost var before := Current();
        ok := CopyYear(table, startYear + i, picks[i]);
        ApplyEachNext(old(Current()), raw, plan, i, before, Outcome(Current(), ok));
        if !ok {
          ApplyEachStops(old(Current()), raw, plan, i + 1);
          return;
        }
      }
      assert plan[..|picks|] == plan;
    }
  }

  /** Copying in two stretches is copying in one, the second stretch
      starting only when the first succeeded. */
  lemma {:induction false} ApplyConcat(d: Dirs, raw: Dir, a: seq<Copy>, b: seq<Copy>)
    ensures Apply(d, raw, a + b) ==
      if Apply(d, raw, a).ok then Apply(Apply(d, raw, a).dirs, raw, b) else Apply(d, raw, a)
    decreases |b|
  {
    if b == [] {
      assert a + b == a;
    } else {
      var b' := b[..|b| - 1];
      ApplyConcat(d, raw, a, b');
      assert (a + b)[..|a + b| - 1] == a + b';
    }
  }

  lemma ApplyOne(d: Dirs, raw: Dir, cs: seq<Copy>, c: Copy)
    ensures Apply(d, raw, cs + [c]) ==
      var o := Apply(d, raw, cs);
      if !o.ok then o
      else if c.name !in raw then Outcome(o.dirs, false)
      else Outcome(Put(o.dirs, c.split, c.name, raw[c.name]), true)
  {
    assert (cs + [c])[..|cs|] == cs;
  }

  lemma IssueCopiesStep(kept: seq<LogRow>, split: Split, issue: string, k: nat)
    requires k < |kept|
    ensures IssueCopies(kept, split, issue, k + 1) ==
      IssueCopies(kept, split, issue, k) + if issue <= kept[k].filename then [Copy(split, kept[k].filename)] else []
  {
  }

  /** Once a copy has failed, nothing more is copied. */
  lemma ApplyStops(d: Dirs, raw: Dir, a: seq<Copy>, cs: seq<Copy>)
    requires a <= cs && !Apply(d, raw, a).ok
    ensures Apply(d, raw, cs) == Apply(d, raw, a)
  {
    assert cs == a + cs[|a|..];
    ApplyConcat(d, raw, a, cs[|a|..]);
  }

  lemma {:induction false} IssueCopiesPrefix(kept: seq<LogRow>, split: Split, issue: string, k: nat, m: nat)
    requires k <= m <= |kept|
    ensures IssueCopies(kept, split, issue, k) <= IssueCopies(kept, split, issue, m)
    decreases m - k
  {
    if k < m {
      IssueCopiesPrefix(kept, split, issue, k, m - 1);
    }
  }

  lemma {:induction false} DealtCopiesPrefix(kept: seq<LogRow>, issues: seq<string>, d: nat, e: nat)
    requires d <= e <= |issues| <= |Splits|
    ensures DealtCopies(kept, issues, d) <= DealtCopies(kept, issues, e)
    decreases e - d
  {
    if d < e {
      DealtCopiesPrefix(kept, issues, d, e - 1);
    }
  }


  /** After a failed stretch nothing more happens. */
  lemma {:induction false} ApplyEachStops(d: Dirs, raw: Dir, css: seq<seq<Copy>>, k: nat)
    requires k <= |css| && !ApplyEach(d, raw, css[..k]).ok
    ensures ApplyEach(d, raw, css) == ApplyEach(d, raw, css[..k])
    decreases |css| - k
  {
    if k < |css| {
      assert css[..|css| - 1][..k] == css[..k];
      ApplyEachStops(d, raw, css[..|css| - 1], k);
    } else {
      assert css[..k] == css;
    }
  }

  /** Making the stretches of copies one after the other is making all their
      copies in order. */
  lemma {:induction false} ApplyEachFlatten(d: Dirs, raw: Dir, css: seq<seq<Copy>>)
    ensures ApplyEach(d, raw, css) == Apply(d, raw, Flatten(css))
  {
    if css != [] {
      ApplyEachFlatten(d, raw, css[..|css| - 1]);
      ApplyConcat(d, raw, Flatten(css[..|css| - 1]), css[|css| - 1]);
    }
  }

  /** The copies of the earlier stretches come first: the copies of the
      first `k` stretches are a prefix of all of them, followed by those of
      stretch `k`. */
  lemma {:induction false} FlattenPrefix(css: seq<seq<Copy>>, k: nat)
    requires k <= |css|
    ensures Flatten(css[..k]) <= Flatten(css)
    ensures k < |css| ==> Flatten(css[..k + 1]) == Flatten(css[..k]) + css[k]
    decreases |css| - k
  {
    if k < |css| {
      FlattenPrefix(css[..|css| - 1], k);
      assert css[..|css| - 1][..k] == css[..k];
      assert css[..k + 1][..k] == css[..k];
      if k + 1 < |css| {
        assert css[..|css| - 1][..k + 1] == css[..k + 1];
      }
    } else {
      assert css[..k] == css;
    }
  }

  lemma ApplyEachNext(d: Dirs, raw: Dir, css: seq<seq<Copy>>, i: nat, mid: Dirs, after: Outcome)
    requires i < |css| && ApplyEach(d, raw, css[..i]) == Outcome(mid, true) && Apply(mid, raw, css[i]) == after
    ensures ApplyEach(d, raw, css[..i + 1]) == after
  {
    assert css[..i + 1][..i] == css[..i];
  }

  /** A row takes part for a year exactly when it is of that year and its
      page is from 1 to 4 (`YearRowsAppend` states that table order is kept). */
  lemma {:induction false} YearRowsFilter(table: seq<LogRow>, year: int)
    ensures forall r :: r in YearRows(table, year) <==> r in table && r.year == year && 1 <= r.page <= 4
  {
    if table != [] {
      var init := table[..|table| - 1];
      YearRowsFilter(init, year);
      assert table == init + [table[|table| - 1]];
    }
  }

  /** The year filter distributes over concatenation: the rows of a year
      taken from two parts of the table are those of the first part
      followed by those of the second, so the filter keeps table order. */
  lemma {:induction false} YearRowsAppend(a: seq<LogRow>, b: seq<LogRow>, year: int)
    ensures YearRows(a + b, year) == YearRows(a, year) + YearRows(b, year)
    decreases |b|
  {
    if b == [] {
      assert a + b == a;
    } else {
      var b' := b[..|b| - 1];
      YearRowsAppend(a, b', year);
      assert (a + b)[..|a + b| - 1] == a + b';
      assert (a + b)[|a + b| - 1] == b[|b| - 1];
    }
  }

  lemma KeyCountAppend(rows: seq<LogRow>, r: LogRow, key: string)
    ensures KeyCount(rows + [r], key) == KeyCount(rows, key) + if Key(r.filename) == key then 1 else 0
  {
    assert (rows + [r])[..|rows|] == rows;
  }

  lemma {:induction false} FourOfCount(all: seq<LogRow>, rest: seq<LogRow>, key: string)
    ensures KeyCount(FourOf(all, rest), key) == if KeyCount(all, key) == 4 then KeyCount(rest, key) else 0
  {
    if rest != [] {
      var init := rest[..|rest| - 1];
      var r := rest[|rest| - 1];
      FourOfCount(all, init, key);
      assert rest == init + [r];
      KeyCountAppend(init, r, key);
      if KeyCount(all, Key(r.filename)) == 4 {
        KeyCountAppend(FourOf(all, init), r, key);
      } else {
        assert FourOf(all, rest) == FourOf(all, init) + [];
        assert FourOf(all, rest) == FourOf(all, init);
        if KeyCount(all, key) == 4 {
          assert Key(r.filename) != key;
        }
      }
    }
  }

  lemma {:induction false} FourOfMember(all: seq<LogRow>, rest: seq<LogRow>)
    ensures forall r :: r in FourOf(all, rest) <==> r in rest && KeyCount(all, Key(r.filename)) == 4
  {
    if rest != [] {
      var init := rest[..|rest| - 1];
      FourOfMember(all, init);
      assert rest == init + [rest[|rest| - 1]];
    }
  }

  /** The kept rows are the rows of the issues with exactly four rows, and
      each such issue keeps all four; rows are counted, so a page that is
      there twice counts twice. */
  lemma KeptMeans(rows: seq<LogRow>)
    ensures forall r :: r in Kept(rows) <==> r in rows && KeyCount(rows, Key(r.filename)) == 4
    ensures forall key :: KeyCount(Kept(rows), key) == if KeyCount(rows, key) == 4 then 4 else 0
  {
    FourOfMember(rows, rows);
    forall key ensures KeyCount(Kept(rows), key) == if KeyCount(rows, key) == 4 then 4 else 0 {
      FourOfCount(rows, rows, key);
    }
  }

  /** Each drawn issue is one of the kept issues of the year, with its four
      rows; nothing keeps two draws from naming the same issue. */
  lemma DrawnIssuesKept(kept: seq<LogRow>, rows: seq<LogRow>, p: Pick)
    requires kept == Kept(rows) && ValidPick(kept, p)
    ensures forall i :: 0 <= i < 3 ==> Issues(kept, p)[i] in Keys(kept) && KeyCount(kept, Issues(kept, p)[i]) == 4
  {
    KeptMeans(rows);
    var issues := Issues(kept, p);
    assert issues[0] == Key(kept[p.first].filename) && kept[p.first] in kept;
    assert issues[1] == Key(kept[p.second].filename) && kept[p.second] in kept;
    assert issues[2] == Key(kept[p.third].filename) && kept[p.third] in kept;
  }

  /** The issues are dealt by position: the first drawn issue goes to
      train, the second to val, the third to test; a year with fewer than
      three issues copies nothing. */
  lemma YearCopiesDealt(table: seq<LogRow>, year: int, p: Pick)
    requires PickFits(table, year, p)
    ensures var kept := Kept(YearRows(table, year));
      && (!Eligible(kept) ==> YearCopies(table, year, p) == [])
      && (Eligible(kept) ==>
            var issues := Issues(kept, p);
            YearCopies(table, year, p) ==
              IssueCopies(kept, Train, issues[0], |kept|)
              + IssueCopies(kept, Val, issues[1], |kept|)
              + IssueCopies(kept, Test, issues[2], |kept|))
  {
    var kept := Kept(YearRows(table, year));
    if Eligible(kept) {
      var issues := Issues(kept, p);
      assert DealtCopies(kept, issues, 1) == IssueCopies(kept, Train, issues[0], |kept|);
      assert DealtCopies(kept, issues, 2) == DealtCopies(kept, issues, 1) + IssueCopies(kept, Val, issues[1], |kept|);
    }
  }

  /** With issue keys of ten characters, the copies for an issue are
      exactly its rows: as many as the rows with that key, each into the
      issue's directory, each the file of a row of that issue. */
  lemma {:induction false} IssueCopiesExact(kept: seq<LogRow>, split: Split, issue: string, k: nat)
    requires k <= |kept| && |issue| == 10
    requires forall j :: 0 <= j < |kept| ==> |kept[j].filename| >= 10
    ensures var cs := IssueCopies(kept, split, issue, k);
      && |cs| == KeyCount(kept[..k], issue)
      && forall c :: c in cs ==> c.split == split && Key(c.name) == issue && exists j :: 0 <= j < k && kept[j].filename == c.name
  {
    if k > 0 {
      IssueCopiesExact(kept, split, issue, k - 1);
      var f := kept[k - 1].filename;
      assert kept[..k] == kept[..k - 1] + [kept[k - 1]];
      KeyCountAppend(kept[..k - 1], kept[k - 1], issue);
      assert (issue <= f) == (Key(f) == issue);
    }
  }

  /** With file names of at least ten characters, each drawn issue has
      exactly its four pages copied. */
  lemma DrawnIssueFourCopies(table: seq<LogRow>, year: int, p: Pick, d: nat)
    requires forall r :: r in table ==> |r.filename| >= 10
    requires d < 3
    requires var kept := Kept(YearRows(table, year)); Eligible(kept) && ValidPick(kept, p)
    ensures var kept := Kept(YearRows(table, year));
      |IssueCopies(kept, Splits[d], Issues(kept, p)[d], |kept|)| == 4
  {
    var rows := YearRows(table, year);
    var kept := Kept(rows);
    KeptLongNames(table, year);
    DrawnIssuesKept(kept, rows, p);
    var issues := Issues(kept, p);
    IssueCopiesExact(kept, Splits[d], issues[d], |kept|);
    assert kept[..|kept|] == kept;
  }

  lemma KeptLongNames(table: seq<LogRow>, year: int)
    requires forall r :: r in table ==> |r.filename| >= 10
    ensures var kept := Kept(YearRows(table, year));
      forall j :: 0 <= j < |kept| ==> |kept[j].filename| >= 10
  {
    var rows := YearRows(table, year);
    var kept := Kept(rows);
    YearRowsFilter(table, year);
    KeptMeans(rows);
    forall j | 0 <= j < |kept| ensures |kept[j].filename| >= 10 {
      assert kept[j] in kept;
    }
  }

  lemma PutDir(d: Dirs, s: Split, name: string, content: Content, s': Split)
    ensures DirOf(Put(d, s, name, content), s') == if s == s' then DirOf(d, s')[name := content] else DirOf(d, s')
  {
  }

  /** A run of copies succeeds exactly when every raw file it copies is
      there; otherwise it stops at the first missing one. */
  lemma {:induction false} ApplyOk(d: Dirs, raw: Dir, cs: seq<Copy>)
    ensures Apply(d, raw, cs).ok <==> forall i :: 0 <= i < |cs| ==> cs[i].name in raw
  {
    if cs != [] {
      var init := cs[..|cs| - 1];
      ApplyOk(d, raw, init);
      assert forall i :: 0 <= i < |init| ==> init[i] == cs[i];
    }
  }

  /** The data set directories only gain or overwrite files: nothing is
      removed, and a file that is new or changed was copied there, with the
      content of the raw file. */
  lemma {:induction false} ApplyOnlyCopies(d: Dirs, raw: Dir, cs: seq<Copy>)
    ensures var e := Apply(d, raw, cs).dirs;
      forall s, n :: n in DirOf(d, s) ==> n in DirOf(e, s)
    ensures var e := Apply(d, raw, cs).dirs;
      forall s, n :: n in DirOf(e, s) && (n !in DirOf(d, s) || DirOf(e, s)[n] != DirOf(d, s)[n]) ==>
        n in raw && DirOf(e, s)[n] == raw[n] && Copy(s, n) in cs
  {
    if cs != [] {
      var init := cs[..|cs| - 1];
      var c := cs[|cs| - 1];
      ApplyOnlyCopies(d, raw, init);
      assert cs == init + [c];
      var o := Apply(d, raw, init);
      if o.ok && c.name in raw {
        forall s {
          PutDir(o.dirs, c.split, c.name, raw[c.name], s);
        }
      }
    }
  }

  /** A run that succeeds leaves every file it copied in its directory with
      the raw file's content. */
  lemma {:induction false} ApplyCopiesAll(d: Dirs, raw: Dir, cs: seq<Copy>)
    requires Apply(d, raw, cs).ok
    ensures var e := Apply(d, raw, cs).dirs;
      forall c :: c in cs ==> c.name in raw && c.name in DirOf(e, c.split) && DirOf(e, c.split)[c.name] == raw[c.name]
  {
    if cs != [] {
      var init := cs[..|cs| - 1];
      var last := cs[|cs| - 1];
      ApplyCopiesAll(d, raw, init);
      assert cs == init + [last];
      var o := Apply(d, raw, init);
      forall s {
        PutDir(o.dirs, last.split, last.name, raw[last.name], s);
      }
    }
  }
}
