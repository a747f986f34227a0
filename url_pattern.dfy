/** The download-link pattern of src/utils/parser.py, searched with Python's
    `re.search(..., re.I)`:

      ^http.*%D0%9A%D0%9F/(\d+)/(\d+)-(\d+)-(\d+)-(\d+)/(\d+)SEP(\d+)SEP(\d+)SEP(\d+).(\w+|\.\w+)

    where SEP is `(?:--|-|-%20|%20-|%20-%20|_)`. `IsMatch` describes every way
    the pattern can match a string; `Search` is the one match Python's
    backtracking engine returns: `.*` is greedy, so the marker is the last one
    from which the rest matches; groups 1 to 8 are forced; group 9 gives back
    digits only as far as the unescaped `.` and the extension need. */
module UrlPattern {
  import opened Text

  /** The marker `%D0%9A%D0%9F/` in lower case; `re.I` accepts it in any case. */
  const Marker: string := "%d0%9a%d0%9f/"

  /** The separator alternatives, in the order the engine tries them. */
  const Separators: seq<string> := ["--", "-", "-%20", "%20-", "%20-%20", "_"]

  /** What follows each of the capture groups 1 to 8. */
  datatype Delim = Lit(c: char) | Sep

  const Frame: seq<Delim> := [Lit('/'), Lit('-'), Lit('-'), Lit('-'), Lit('/'), Sep, Sep, Sep]

  /** One match: where the marker starts, groups 1 to 8 with the text each
      following delimiter matched, group 9 (the page), the character taken by
      the unescaped `.`, and group 10 (the extension). */
  datatype Match = Match(at: nat, groups: seq<string>, delims: seq<string>, page: string, dot: char, ext: string)

  /** What reading one delimiter gives: the text it took and what follows. */
  datatype DelimRead = NoDelim | DelimRead(taken: string, after: string)

  /** What reading groups 1 to 8 gives: the groups, the delimiter texts and
      what follows the last delimiter. */
  datatype FrameRead = NoFrame | FrameRead(groups: seq<string>, delims: seq<string>, rest: string)

  /** What reading group 9, the `.` and group 10 gives. */
  datatype TailRead = NoTail | TailRead(page: string, dot: char, ext: string)

  predicate DelimText(d: Delim, x: string) {
    match d
    case Lit(c) => x == [c]
    case Sep => x in Separators
  }

  /** The language of `(\w+|\.\w+)`. */
  predicate IsExt(e: string) {
    (|e| > 0 && AllIn(e, Word)) || (|e| > 1 && e[0] == '.' && AllIn(e[1..], Word))
  }

  function Interleave(gs: seq<string>, xs: seq<string>): string
    requires |gs| == |xs|
  {
    if gs == [] then [] else gs[0] + xs[0] + Interleave(gs[1..], xs[1..])
  }

  lemma InterleaveCons(g: string, x: string, gs: seq<string>, xs: seq<string>)
    requires |gs| == |xs|
    ensures Interleave([g] + gs, [x] + xs) == g + x + Interleave(gs, xs)
  {
    assert ([g] + gs)[1..] == gs;
    assert ([x] + xs)[1..] == xs;
  }

  lemma Assoc4(a: string, b: string, c: string, d: string)
    ensures a + (b + (c + d)) == (a + b + c) + d
  {
  }

  /** Each group is a run of digits and each delimiter text is one the
      frame allows at its place. */
  predicate Fits(frame: seq<Delim>, gs: seq<string>, xs: seq<string>)
    decreases |gs|
  {
    if frame == [] || gs == [] || xs == [] then frame == [] && gs == [] && xs == []
    else
      && IsNumber(gs[0]) && DelimText(frame[0], xs[0])
      && Fits(frame[1..], gs[1..], xs[1..])
  }

  lemma {:induction false} FitsAt(frame: seq<Delim>, gs: seq<string>, xs: seq<string>, i: nat)
    requires Fits(frame, gs, xs) && i < |frame|
    ensures |gs| == |frame| && |xs| == |frame|
    ensures IsNumber(gs[i]) && DelimText(frame[i], xs[i])
    decreases |frame|
  {
    FitsLength(frame, gs, xs);
    if i > 0 {
      FitsAt(frame[1..], gs[1..], xs[1..], i - 1);
    }
  }

  lemma {:induction false} FitsLength(frame: seq<Delim>, gs: seq<string>, xs: seq<string>)
    requires Fits(frame, gs, xs)
    ensures |gs| == |frame| && |xs| == |frame|
    decreases |frame|
  {
    if frame != [] {
      FitsLength(frame[1..], gs[1..], xs[1..]);
    }
  }

  predicate WellFormed(m: Match) {
    && |m.groups| == |m.delims| && Fits(Frame, m.groups, m.delims)
    && IsNumber(m.page) && m.dot != '\n' && IsExt(m.ext)
  }

  /** The text matched after the marker. */
  function Body(m: Match): string
    requires |m.groups| == |m.delims|
  {
    Interleave(m.groups, m.delims) + m.page + [m.dot] + m.ext
  }

  lemma BodySplit(m: Match)
    requires |m.groups| == |m.delims|
    ensures Body(m) == Interleave(m.groups, m.delims) + (m.page + [m.dot] + m.ext)
  {
  }

  predicate HttpPrefix(s: string) {
    |s| >= 4 && LowerStr(s[..4]) == "http"
  }

  predicate MarkerAt(s: string, p: nat) {
    p + |Marker| <= |s| && forall i :: 0 <= i < |Marker| ==> Lower(s[p + i]) == Marker[i]
  }

  /** `s` and `t` differ at most in the case of their letters. */
  predicate SameUpToCase(s: string, t: string) {
    |s| == |t| && forall i :: 0 <= i < |s| ==> Lower(s[i]) == Lower(t[i])
  }

  /** `re.I` on the literal parts: two texts that differ only in the case of
      their letters agree on the `http` anchor and on every marker position. */
  lemma LiteralsIgnoreCase(s: string, t: string, p: nat)
    requires SameUpToCase(s, t)
    ensures HttpPrefix(s) <==> HttpPrefix(t)
    ensures MarkerAt(s, p) <==> MarkerAt(t, p)
  {
    if |s| >= 4 {
      assert LowerStr(s[..4]) == LowerStr(t[..4]);
    }
  }

  /** The marker as the pattern writes it, in upper case, is found. */
  lemma UpperMarker()
    ensures MarkerAt("%D0%9A%D0%9F/", 0) && HttpPrefix("HTTP")
  {
    assert LowerStr("HTTP") == "http";
  }

  /** The `.*` after `http` can stretch to position `p`. */
  predicate DotsReach(s: string, p: nat) {
    4 <= p <= |s| && p - 4 <= Span(s[4..], NotNewline)
  }

  /** ... which is to say that no newline lies between `http` and `p`. */
  lemma DotsReachNoNewline(s: string, p: nat)
    requires 4 <= p <= |s|
    ensures DotsReach(s, p) <==> AllIn(s[4..p], NotNewline)
  {
    assert s[4..][..p - 4] == s[4..p];
    if AllIn(s[4..p], NotNewline) {
      SpanCovers(s[4..], NotNewline, p - 4);
    }
    if p - 4 <= Span(s[4..], NotNewline) {
      SpanPrefix(s[4..], NotNewline, p - 4);
    }
  }

  /** `m` is a way for the pattern to match `s`: anchored at the start, `.*`
      spanning no newline up to the marker, not anchored at the end. */
  predicate IsMatch(s: string, m: Match) {
    && HttpPrefix(s) && DotsReach(s, m.at) && MarkerAt(s, m.at)
    && WellFormed(m) && Body(m) <= s[m.at + |Marker|..]
  }

  /** The separator alternation at the start of `u`, tried in its order:
      the length of the first alternative that a digit follows, 0 when none
      is (group 7, 8 or 9 comes next, so an alternative without a digit after
      it fails at once and the engine moves on to the next one). */
  function ParseSep(u: string): nat {
    if |u| > 2 && u[0] == '-' && u[1] == '-' && IsDigit(u[2]) then 2
    else if |u| > 1 && u[0] == '-' && IsDigit(u[1]) then 1
    else if |u| > 4 && u[0] == '-' && u[1] == '%' && u[2] == '2' && u[3] == '0' && IsDigit(u[4]) then 4
    else if |u| > 4 && u[0] == '%' && u[1] == '2' && u[2] == '0' && u[3] == '-' && IsDigit(u[4]) then 4
    else if |u| > 7 && u[0] == '%' && u[1] == '2' && u[2] == '0' && u[3] == '-'
      && u[4] == '%' && u[5] == '2' && u[6] == '0' && IsDigit(u[7]) then 7
    else if |u| > 1 && u[0] == '_' && IsDigit(u[1]) then 1
    else 0
  }

  lemma SeparatorCases(x: string)
    requires x in Separators
    ensures x == "--" || x == "-" || x == "-%20" || x == "%20-" || x == "%20-%20" || x == "_"
  {
  }

  /** The separator found is one of the alternatives, and a digit follows it. */
  lemma ParseSepSound(u: string)
    requires ParseSep(u) > 0
    ensures var n := ParseSep(u); n < |u| && u[..n] in Separators && IsDigit(u[n])
  {
    var n := ParseSep(u);
    var x := u[..n];
    assert x[0] == u[0];
    if n == 2 {
      assert x == "--";
    } else if n == 1 {
      assert x == "-" || x == "_";
    } else if n == 4 {
      assert x == "-%20" || x == "%20-";
    } else {
      assert x == "%20-%20";
    }
  }

  /** Every alternative that a digit follows is the one found: at most one
      can be, so the order of the alternation never decides a match. */
  lemma ParseSepComplete(u: string, x: string)
    requires x in Separators && x <= u && |x| < |u| && IsDigit(u[|x|])
    ensures ParseSep(u) == |x|
  {
    SeparatorCases(x);
    assert forall i :: 0 <= i < |x| ==> u[i] == x[i];
  }

  function ParseDelim(u: string, d: Delim): DelimRead {
    match d
    case Lit(c) => if |u| > 0 && u[0] == c then DelimRead([c], u[1..]) else NoDelim
    case Sep =>
      var n := ParseSep(u);
      if n == 0 then NoDelim else DelimRead(u[..n], u[n..])
  }

  /** A delimiter read is one the frame allows, and the text splits there. */
  lemma ParseDelimSound(u: string, d: Delim)
    requires ParseDelim(u, d).DelimRead?
    ensures var x := ParseDelim(u, d); DelimText(d, x.taken) && u == x.taken + x.after
  {
    if d.Sep? {
      ParseSepSound(u);
    }
  }

  /** Groups 1 to 8: each `\d+` is followed by a delimiter that does not start
      with a digit, so it takes the whole run of digits. */
  function ParseFrame(t: string, frame: seq<Delim>): FrameRead
    decreases |t|
  {
    if frame == [] then FrameRead([], [], t)
    else
      var n := Span(t, Digit);
      if n == 0 then NoFrame
      else
        var d := ParseDelim(t[n..], frame[0]);
        if d.NoDelim? then NoFrame
        else
          var f := ParseFrame(d.after, frame[1..]);
          if f.NoFrame? then NoFrame
          else FrameRead([t[..n]] + f.groups, [d.taken] + f.delims, f.rest)
  }

  /** What `ParseFrame` returns is a way of matching groups 1 to 8. */
  lemma {:induction false} ParseFrameSound(t: string, frame: seq<Delim>)
    requires ParseFrame(t, frame).FrameRead?
    ensures var f := ParseFrame(t, frame);
      && |f.groups| == |f.delims| && Fits(frame, f.groups, f.delims)
      && t == Interleave(f.groups, f.delims) + f.rest
    decreases |t|
  {
    if frame != [] {
      var n := Span(t, Digit);
      var d := ParseDelim(t[n..], frame[0]);
      ParseDelimSound(t[n..], frame[0]);
      ParseFrameSound(d.after, frame[1..]);
      var f := ParseFrame(d.after, frame[1..]);
      FrameCons(t, n, frame, d.taken, d.after, f.groups, f.delims, f.rest);
    }
  }

  /** One more group and delimiter in front of a fitting frame. */
  lemma FrameCons(t: string, n: nat, frame: seq<Delim>, x: string, after: string, gs: seq<string>, xs: seq<string>, rest: string)
    requires 0 < n <= |t| && AllIn(t[..n], Digit) && frame != [] && DelimText(frame[0], x)
    requires t[n..] == x + after && |gs| == |xs| && Fits(frame[1..], gs, xs) && after == Interleave(gs, xs) + rest
    ensures Fits(frame, [t[..n]] + gs, [x] + xs)
    ensures t == Interleave([t[..n]] + gs, [x] + xs) + rest
  {
    InterleaveCons(t[..n], x, gs, xs);
    var i := Interleave(gs, xs);
    assert t == t[..n] + (x + (i + rest));
    Assoc4(t[..n], x, i, rest);
    assert ([t[..n]] + gs)[1..] == gs && ([x] + xs)[1..] == xs;
  }

  /** Group 10: `\w+` is tried first and, being last, keeps all of its run;
      `\.\w+` is the fallback. The result is the longest prefix of `u` that
      group 10 can match, or empty when none can. */
  function ParseExt(u: string): (e: string)
    ensures e != [] ==> IsExt(e) && e <= u
    ensures forall k :: |e| < k <= |u| ==> !IsExt(u[..k])
  {
    var w := Span(u, Word);
    if w > 0 then u[..w]
    else if |u| > 1 && u[0] == '.' && Span(u[1..], Word) > 0 then
      var e := u[..1 + Span(u[1..], Word)];
      assert e[1..] == u[1..][..Span(u[1..], Word)];
      e
    else []
  }

  /** Group 9, the unescaped `.` and group 10: group 9 is tried with `k`
      digits, then with one fewer, down to one. */
  function ParseTail(r: string, k: nat): TailRead
    requires k <= Span(r, Digit)
    decreases k
  {
    if k == 0 then NoTail
    else if k < |r| && r[k] != '\n' && ParseExt(r[k + 1..]) != [] then
      TailRead(r[..k], r[k], ParseExt(r[k + 1..]))
    else ParseTail(r, k - 1)
  }

  /** What `ParseTail` returns is a way of matching group 9, the `.` and
      group 10, with at most `k` digits in group 9. */
  lemma {:induction false} ParseTailSound(r: string, k: nat)
    requires k <= Span(r, Digit) && ParseTail(r, k).TailRead?
    ensures var x := ParseTail(r, k);
      && 0 < |x.page| <= k && IsNumber(x.page) && x.dot != '\n' && IsExt(x.ext)
      && x.page + [x.dot] + x.ext <= r
    decreases k
  {
    if k < |r| && r[k] != '\n' && ParseExt(r[k + 1..]) != [] {
      var e := ParseExt(r[k + 1..]);
      PiecesPrefix(r, k, e);
      SpanPrefix(r, Digit, k);
    } else {
      ParseTailSound(r, k - 1);
    }
  }

  lemma PiecesPrefix(r: string, k: nat, e: string)
    requires k < |r| && e <= r[k + 1..]
    ensures r[..k] + [r[k]] + e <= r
  {
    assert r[..k + 1 + |e|] == r[..k] + [r[k]] + e;
  }

  /** The match, if any, whose marker starts at `p`. */
  function MatchAt(s: string, p: nat): Option<Match>
    requires 4 <= p <= |s|
  {
    if MarkerAt(s, p) then MatchAfter(p, s[p + |Marker|..]) else None
  }

  /** The match whose marker starts at `p`, given the text `t` after it. */
  function MatchAfter(p: nat, t: string): Option<Match> {
    var f := ParseFrame(t, Frame);
    if f.NoFrame? then None
    else
      var x := ParseTail(f.rest, Span(f.rest, Digit));
      if x.NoTail? then None
      else Some(Match(p, f.groups, f.delims, x.page, x.dot, x.ext))
  }

  /** A match found at `p` is a way of matching the text after the marker. */
  lemma MatchAtSound(s: string, p: nat)
    requires 4 <= p <= |s| && MatchAt(s, p).Some?
    ensures var m := MatchAt(s, p).value;
      m.at == p && MarkerAt(s, p) && WellFormed(m) && Body(m) <= s[p + |Marker|..]
  {
    MatchAfterSound(p, s[p + |Marker|..]);
  }

  lemma MatchAfterSound(p: nat, t: string)
    requires MatchAfter(p, t).Some?
    ensures var m := MatchAfter(p, t).value; m.at == p && WellFormed(m) && Body(m) <= t
  {
    var f := ParseFrame(t, Frame);
    ParseFrameSound(t, Frame);
    ParseTailSound(f.rest, Span(f.rest, Digit));
    BodySplit(MatchAfter(p, t).value);
  }

  /** Backtracking of `.*`: the marker positions from `p` down to 4. */
  function SearchFrom(s: string, p: nat): Option<Match>
    requires 4 <= p <= |s|
    decreases p
  {
    var m := MatchAt(s, p);
    if m.Some? then m else if p == 4 then None else SearchFrom(s, p - 1)
  }

  /** What `SearchFrom` returns is the match at a position it tried. */
  lemma {:induction false} SearchFromSound(s: string, p: nat)
    requires 4 <= p <= |s| && SearchFrom(s, p).Some?
    ensures var at := SearchFrom(s, p).value.at; 4 <= at <= p && MatchAt(s, at) == SearchFrom(s, p)
    decreases p
  {
    if MatchAt(s, p).None? {
      SearchFromSound(s, p - 1);
    } else {
      MatchAtSound(s, p);
    }
  }

  /** No marker position above the one `SearchFrom` returns has a match. */
  lemma {:induction false} SearchFromIsLast(s: string, p: nat, q: nat)
    requires 4 <= q <= p <= |s| && MatchAt(s, q).Some?
    ensures SearchFrom(s, p).Some? && q <= SearchFrom(s, p).value.at
    decreases p
  {
    if MatchAt(s, p).None? {
      SearchFromIsLast(s, p - 1, q);
    }
  }

  /** `re.search` of the pattern with `re.I`. */
  function Search(s: string): Option<Match> {
    if !HttpPrefix(s) then None else SearchFrom(s, 4 + Span(s[4..], NotNewline))
  }

  /** Every result of `Search` is a way of matching. */
  lemma SearchSound(s: string)
    requires Search(s).Some?
    ensures IsMatch(s, Search(s).value)
  {
    var top := 4 + Span(s[4..], NotNewline);
    SearchFromSound(s, top);
    MatchAtSound(s, Search(s).value.at);
  }

  /** Any text group 10 can match at the start of `u` is no longer than
      what `ParseExt` takes. */
  lemma ExtLongest(u: string, e: string)
    requires IsExt(e) && e <= u
    ensures |e| <= |ParseExt(u)|
  {
    assert u[..|e|] == e;
  }

  lemma ParseExtComplete(u: string, e: string)
    requires IsExt(e) && e <= u
    ensures ParseExt(u) != []
  {
    assert u[0] == e[0];
    if |e| > 1 {
      assert u[1] == e[1];
    }
  }

  /** If some group 9 of at most `k` digits leads to a match, trying from `k`
      downwards finds one at least as long; one just as long takes the same
      `.` and a group 10 at least as long. */
  lemma {:induction false} ParseTailComplete(r: string, k: nat, p: string, d: char, e: string)
    requires k <= Span(r, Digit)
    requires IsNumber(p) && |p| <= k && d != '\n' && IsExt(e) && p + [d] + e <= r
    ensures ParseTail(r, k).TailRead? && |ParseTail(r, k).page| >= |p|
    ensures |ParseTail(r, k).page| == |p| ==> ParseTail(r, k).dot == d && |e| <= |ParseTail(r, k).ext|
    decreases k
  {
    if k == |p| {
      assert r[k] == d;
      assert e <= r[k + 1..];
      ParseExtComplete(r[k + 1..], e);
      ExtLongest(r[k + 1..], e);
    } else if !(k < |r| && r[k] != '\n' && ParseExt(r[k + 1..]) != []) {
      ParseTailComplete(r, k - 1, p, d, e);
    }
  }

  /** No literal delimiter of the frame is a digit. */
  predicate FrameOk(frame: seq<Delim>)
    decreases |frame|
  {
    frame == [] || ((frame[0].Lit? ==> !IsDigit(frame[0].c)) && FrameOk(frame[1..]))
  }

  /** One group of digits and the delimiter after it, followed by a digit,
      are read the only way they can be. */
  lemma DelimStep(t: string, d: Delim, g: string, x: string, rest: string)
    requires d.Lit? ==> !IsDigit(d.c)
    requires IsNumber(g) && DelimText(d, x)
    requires |rest| > 0 && IsDigit(rest[0])
    requires t == g + (x + rest)
    ensures Span(t, Digit) == |g| && t[..|g|] == g
    ensures ParseDelim(t[|g|..], d) == DelimRead(x, rest)
  {
    var u := t[|g|..];
    assert t[..|g|] == g && u == x + rest;
    assert |x| > 0 && !IsDigit(x[0]) by {
      if d.Sep? {
        SeparatorCases(x);
      }
    }
    assert t[|g|] == x[0];
    SpanStops(t, Digit, |g|);
    assert x <= u && u[|x|..] == rest;
    if d.Sep? {
      ParseSepComplete(u, x);
      assert u[..|x|] == x;
    }
  }

  /** `ParseFrame` after the first group and delimiter. */
  function Prepend(g: string, x: string, f: FrameRead): FrameRead {
    if f.NoFrame? then NoFrame else FrameRead([g] + f.groups, [x] + f.delims, f.rest)
  }

  lemma ParseFrameUnfold(t: string, frame: seq<Delim>, g: string, x: string, v: string)
    requires frame != [] && |g| > 0 && Span(t, Digit) == |g| && t[..|g|] == g
    requires ParseDelim(t[|g|..], frame[0]) == DelimRead(x, v)
    ensures ParseFrame(t, frame) == Prepend(g, x, ParseFrame(v, frame[1..]))
  {
  }

  /** The text of a frame match splits into its first group, its first
      delimiter and the rest. */
  lemma InterleaveHead(gs: seq<string>, xs: seq<string>, r: string)
    requires |gs| == |xs| > 0
    ensures Interleave(gs, xs) + r == gs[0] + (xs[0] + (Interleave(gs[1..], xs[1..]) + r))
  {
    Assoc4(gs[0], xs[0], Interleave(gs[1..], xs[1..]), r);
  }

  /** What follows the first delimiter of a frame match starts with a digit. */
  lemma FitsNext(frame: seq<Delim>, gs: seq<string>, xs: seq<string>, r: string)
    requires |gs| == |xs| > 0 && Fits(frame, gs, xs)
    requires |r| > 0 && IsDigit(r[0])
    ensures |Interleave(gs[1..], xs[1..]) + r| > 0 && IsDigit((Interleave(gs[1..], xs[1..]) + r)[0])
  {
    if |gs| > 1 {
      FitsAt(frame, gs, xs, 1);
      assert (Interleave(gs[1..], xs[1..]) + r)[0] == gs[1][0];
    }
  }

  /** `gs` and `xs` are a way of matching groups 1 to 8 at the start of
      `t`, and a digit follows them. */
  predicate FrameInput(t: string, frame: seq<Delim>, gs: seq<string>, xs: seq<string>, r: string) {
    && FrameOk(frame) && |gs| == |xs| && Fits(frame, gs, xs)
    && |r| > 0 && IsDigit(r[0]) && t == Interleave(gs, xs) + r
  }

  /** The first group and delimiter of a way of matching groups 1 to 8 are
      the ones `ParseFrame` reads first, and the rest is again such a way. */
  lemma FrameHead(t: string, frame: seq<Delim>, gs: seq<string>, xs: seq<string>, r: string)
    requires frame != [] && FrameInput(t, frame, gs, xs, r)
    ensures |gs| > 0
    ensures FrameInput(Interleave(gs[1..], xs[1..]) + r, frame[1..], gs[1..], xs[1..], r)
    ensures ParseFrame(t, frame) == Prepend(gs[0], xs[0], ParseFrame(Interleave(gs[1..], xs[1..]) + r, frame[1..]))
  {
    FitsLength(frame, gs, xs);
    var rest := Interleave(gs[1..], xs[1..]) + r;
    InterleaveHead(gs, xs, r);
    FitsNext(frame, gs, xs, r);
    FitsAt(frame, gs, xs, 0);
    DelimStep(t, frame[0], gs[0], xs[0], rest);
    ParseFrameUnfold(t, frame, gs[0], xs[0], rest);
  }

  /** Groups 1 to 8 are determined: any way of matching them that a digit
      follows is the one `ParseFrame` finds. */
  lemma {:induction false} ParseFrameComplete(t: string, frame: seq<Delim>, gs: seq<string>, xs: seq<string>, r: string)
    requires FrameInput(t, frame, gs, xs, r)
    ensures ParseFrame(t, frame) == FrameRead(gs, xs, r)
    decreases |frame|
  {
    if frame != [] {
      FrameHead(t, frame, gs, xs, r);
      ParseFrameComplete(Interleave(gs[1..], xs[1..]) + r, frame[1..], gs[1..], xs[1..], r);
      assert gs == [gs[0]] + gs[1..] && xs == [xs[0]] + xs[1..];
    } else {
      FitsLength(frame, gs, xs);
      assert Interleave(gs, xs) == [];
    }
  }

  /** The marker at `m.at`, followed by the text of a well-formed match,
      makes `MatchAt` succeed there, with the same groups 1 to 8, a group 9
      at least as long and, when group 9 is as long, the same `.` and a
      group 10 at least as long. */
  lemma MatchAtComplete(s: string, m: Match)
    requires 4 <= m.at <= |s| && MarkerAt(s, m.at) && WellFormed(m) && Body(m) <= s[m.at + |Marker|..]
    ensures Covers(MatchAt(s, m.at), m)
  {
    MatchAfterComplete(s[m.at + |Marker|..], m);
  }

  /** `r` is a match with the groups 1 to 8 of `m` and a group 9 at least
      as long; with a group 9 just as long, it has the `.` of `m` and a
      group 10 at least as long. */
  predicate Covers(r: Option<Match>, m: Match) {
    && r.Some? && r.value.groups == m.groups && r.value.delims == m.delims && |r.value.page| >= |m.page|
    && (|r.value.page| == |m.page| ==> r.value.dot == m.dot && |r.value.ext| >= |m.ext|)
  }

  lemma MatchAfterComplete(t: string, m: Match)
    requires WellFormed(m) && Body(m) <= t
    ensures Covers(MatchAfter(m.at, t), m)
  {
    var r := t[|Interleave(m.groups, m.delims)|..];
    BodySplit(m);
    PrefixSplit(Interleave(m.groups, m.delims), m.page + [m.dot] + m.ext, t);
    ParseFrameComplete(t, Frame, m.groups, m.delims, r);
    TailOfMatch(r, m.page, m.dot, m.ext);
  }

  /** Group 9 of a match is no longer than what `ParseTail` reads; when it
      is as long, so is its `.` the same and its group 10 no longer. */
  lemma TailOfMatch(r: string, page: string, dot: char, ext: string)
    requires IsNumber(page) && dot != '\n' && IsExt(ext) && page + [dot] + ext <= r
    ensures var x := ParseTail(r, Span(r, Digit));
      && x.TailRead? && |x.page| >= |page|
      && (|x.page| == |page| ==> x.dot == dot && |ext| <= |x.ext|)
  {
    assert r[..|page|] == page;
    SpanCovers(r, Digit, |page|);
    ParseTailComplete(r, Span(r, Digit), page, dot, ext);
  }

  lemma PrefixSplit(a: string, b: string, t: string)
    requires a + b <= t
    ensures t == a + t[|a|..] && b <= t[|a|..]
  {
  }

  /** `Search` is the match Python returns: it exists whenever any match does,
      its marker is the last one from which the pattern can match, and at
      that marker no match has different groups 1 to 8 or a longer group 9.
      Among the matches there with the same group 9, it has the longest
      group 10: `\w+` and `\.\w+` are greedy and nothing follows them. */
  lemma SearchIsGreedy(s: string, m: Match)
    requires IsMatch(s, m)
    ensures Search(s).Some?
    ensures m.at <= Search(s).value.at
    ensures m.at == Search(s).value.at ==>
      && Search(s).value.groups == m.groups && Search(s).value.delims == m.delims
      && |m.page| <= |Search(s).value.page|
    ensures m.at == Search(s).value.at && |m.page| == |Search(s).value.page| ==>
      Search(s).value.page == m.page && Search(s).value.dot == m.dot && |m.ext| <= |Search(s).value.ext|
  {
    MatchAtComplete(s, m);
    SearchAtLeast(s, m.at);
    var r := Search(s).value;
    if m.at == r.at {
      assert Covers(Search(s), m);
      if |m.page| == |r.page| {
        SearchSound(s);
        SamePage(s[m.at + |Marker|..], m, r);
      }
    }
  }

  /** Group 9 is settled before group 10: after the digits `12.jpg`, group 9
      takes `12` and group 10 `jpg`, although group 9 `1`, the `.` on `2`
      and group 10 `.jpg` would give a longer group 10. */
  lemma PageBeforeExt()
    ensures Span("12.jpg", Digit) == 2
    ensures ParseTail("12.jpg", 2) == TailRead("12", '.', "jpg")
    ensures IsNumber("1") && IsExt(".jpg") && "1" + ['2'] + ".jpg" <= "12.jpg"
  {
    var r := "12.jpg";
    assert r[..2] == "12" && r[2] == '.' && r[3..] == "jpg";
    assert "1" + ['2'] + ".jpg" == r;
    SpanStops(r, Digit, 2);
    SpanCovers("jpg", Word, 3);
    assert ParseExt(r[3..]) == "jpg";
  }

  /** Two matches of the text after one marker that agree on groups 1 to 8
      and on the length of group 9 have the same group 9. */
  lemma SamePage(t: string, a: Match, b: Match)
    requires |a.groups| == |a.delims| && a.groups == b.groups && a.delims == b.delims
    requires |a.page| == |b.page| && Body(a) <= t && Body(b) <= t
    ensures a.page == b.page
  {
    var n := |Interleave(a.groups, a.delims)|;
    BodySplit(a);
    BodySplit(b);
    assert a.page == Body(a)[n..n + |a.page|] == t[n..n + |a.page|];
    assert b.page == Body(b)[n..n + |b.page|] == t[n..n + |a.page|];
  }

  /** A marker position the `.*` can reach and from which the rest matches
      bounds the one `Search` settles on from below. */
  lemma SearchAtLeast(s: string, q: nat)
    requires HttpPrefix(s) && DotsReach(s, q) && MatchAt(s, q).Some?
    ensures Search(s).Some? && q <= Search(s).value.at
    ensures q == Search(s).value.at ==> Search(s) == MatchAt(s, q)
  {
    var top := 4 + Span(s[4..], NotNewline);
    SearchFromIsLast(s, top, q);
    SearchFromSound(s, top);
  }

  /** The pattern fails exactly when no way of matching exists. */
  lemma SearchFailsIffNoMatch(s: string)
    ensures Search(s).None? <==> forall m :: !IsMatch(s, m)
  {
    if Search(s).None? {
      forall m | IsMatch(s, m) ensures false {
        SearchIsGreedy(s, m);
      }
    } else {
      SearchSound(s);
    }
  }

  // Case-insensitive matching, the rest of `re.I`: `\d`, `\w`, `.`, the
  // separators and the literal `/` and `-` accept a character exactly when
  // they accept it in the other case, so only group 10 and the `.` before
  // it can differ in case.

  predicate IsLetter(c: char) { 'A' <= c <= 'Z' || 'a' <= c <= 'z' }

  /** Two characters with the same lower case are in the same classes, and
      are the same character unless they are letters. */
  lemma LowerSame(c: char, d: char)
    requires Lower(c) == Lower(d)
    ensures IsLetter(c) <==> IsLetter(d)
    ensures !IsLetter(c) ==> c == d
    ensures InClass(c, Digit) <==> InClass(d, Digit)
    ensures InClass(c, Word) <==> InClass(d, Word)
    ensures InClass(c, NotNewline) <==> InClass(d, NotNewline)
    ensures InClass(c, Space) <==> InClass(d, Space)
  {
  }

  lemma CaseSlice(s: string, t: string, i: nat, j: nat)
    requires SameUpToCase(s, t) && i <= j <= |s|
    ensures SameUpToCase(s[i..j], t[i..j])
  {
    assert forall k :: 0 <= k < j - i ==> s[i..j][k] == s[i + k] && t[i..j][k] == t[i + k];
  }

  /** A class consumes as much of `s` as of `t`. */
  lemma SpanCase(s: string, t: string, cls: CharClass)
    requires SameUpToCase(s, t)
    ensures Span(s, cls) == Span(t, cls)
  {
    var n := Span(s, cls);
    forall i | 0 <= i < |s|
      ensures InClass(s[i], cls) <==> InClass(t[i], cls)
    {
      LowerSame(s[i], t[i]);
    }
    assert AllIn(t[..n], cls) by {
      assert forall i :: 0 <= i < n ==> t[..n][i] == t[i] && s[..n][i] == s[i];
    }
    if n < |s| {
      SpanStops(t, cls, n);
    } else {
      SpanCovers(t, cls, n);
    }
  }

  /** Digits have no case. */
  lemma DigitsCase(s: string, t: string)
    requires SameUpToCase(s, t) && AllIn(s, Digit)
    ensures s == t
  {
    forall i | 0 <= i < |s|
      ensures s[i] == t[i]
    {
      LowerSame(s[i], t[i]);
    }
  }

  /** Where either text has no letter, the two texts agree. */
  lemma NonLettersCase(u: string, v: string)
    requires SameUpToCase(u, v)
    ensures forall i :: 0 <= i < |u| && (!IsLetter(u[i]) || !IsLetter(v[i])) ==> u[i] == v[i]
    ensures forall i :: 0 <= i < |u| ==> (IsDigit(u[i]) <==> IsDigit(v[i]))
  {
    forall i | 0 <= i < |u|
      ensures (!IsLetter(u[i]) || !IsLetter(v[i])) ==> u[i] == v[i]
      ensures IsDigit(u[i]) <==> IsDigit(v[i])
    {
      LowerSame(u[i], v[i]);
    }
  }

  /** The separator alternation takes the same text from both. */
  lemma ParseSepCase(u: string, v: string)
    requires SameUpToCase(u, v)
    ensures ParseSep(u) == ParseSep(v) && u[..ParseSep(u)] == v[..ParseSep(u)]
  {
    NonLettersCase(u, v);
    var n := ParseSep(u);
    assert forall i :: 0 <= i < n ==> !IsLetter(u[i]);
  }

  /** Reading one delimiter gives the same text from both and leaves texts
      that again differ only in case. */
  predicate DelimAlike(a: DelimRead, b: DelimRead) {
    a.NoDelim? == b.NoDelim? && (a.DelimRead? ==> a.taken == b.taken && SameUpToCase(a.after, b.after))
  }

  lemma ParseDelimCase(u: string, v: string, d: Delim)
    requires SameUpToCase(u, v) && (d.Lit? ==> !IsLetter(d.c))
    ensures DelimAlike(ParseDelim(u, d), ParseDelim(v, d))
  {
    if d.Lit? {
      if |u| > 0 {
        LowerSame(u[0], v[0]);
        CaseSlice(u, v, 1, |u|);
      }
    } else {
      ParseSepCase(u, v);
      CaseSlice(u, v, ParseSep(u), |u|);
    }
  }

  /** No literal delimiter of the frame is a letter. */
  predicate Caseless(frame: seq<Delim>) {
    forall i :: 0 <= i < |frame| && frame[i].Lit? ==> !IsLetter(frame[i].c)
  }

  predicate FrameAlike(a: FrameRead, b: FrameRead) {
    && a.NoFrame? == b.NoFrame?
    && (a.FrameRead? ==> a.groups == b.groups && a.delims == b.delims && SameUpToCase(a.rest, b.rest))
  }

  /** Groups 1 to 8 are read alike from both texts. */
  lemma {:induction false} ParseFrameCase(t1: string, t2: string, frame: seq<Delim>)
    requires SameUpToCase(t1, t2) && Caseless(frame)
    ensures FrameAlike(ParseFrame(t1, frame), ParseFrame(t2, frame))
    decreases |t1|
  {
    if frame != [] {
      var n := Span(t1, Digit);
      SpanCase(t1, t2, Digit);
      if n > 0 {
        CaseSlice(t1, t2, 0, n);
        CaseSlice(t1, t2, n, |t1|);
        DigitsCase(t1[..n], t2[..n]);
        assert frame[0].Lit? ==> !IsLetter(frame[0].c);
        ParseDelimCase(t1[n..], t2[n..], frame[0]);
        var d1 := ParseDelim(t1[n..], frame[0]);
        var d2 := ParseDelim(t2[n..], frame[0]);
        if d1.DelimRead? {
          assert Caseless(frame[1..]) by {
            assert forall i :: 0 <= i < |frame[1..]| ==> frame[1..][i] == frame[i + 1];
          }
          ParseFrameCase(d1.after, d2.after, frame[1..]);
        }
      }
    }
  }

  predicate TailAlike(a: TailRead, b: TailRead) {
    && a.NoTail? == b.NoTail?
    && (a.TailRead? ==> a.page == b.page && Lower(a.dot) == Lower(b.dot) && SameUpToCase(a.ext, b.ext))
  }

  /** Group 10 takes as much from both texts, up to case. */
  lemma ParseExtCase(u: string, v: string)
    requires SameUpToCase(u, v)
    ensures SameUpToCase(ParseExt(u), ParseExt(v))
  {
    SpanCase(u, v, Word);
    var w := Span(u, Word);
    if w > 0 {
      CaseSlice(u, v, 0, w);
    } else if |u| > 1 {
      LowerSame(u[0], v[0]);
      CaseSlice(u, v, 1, |u|);
      SpanCase(u[1..], v[1..], Word);
      CaseSlice(u, v, 0, 1 + Span(u[1..], Word));
    }
  }

  /** Group 9, the `.` and group 10 are read alike from both texts. */
  lemma {:induction false} ParseTailCase(r1: string, r2: string, k: nat)
    requires SameUpToCase(r1, r2) && k <= Span(r1, Digit) && k <= Span(r2, Digit)
    ensures TailAlike(ParseTail(r1, k), ParseTail(r2, k))
    decreases k
  {
    if k > 0 {
      if k < |r1| {
        LowerSame(r1[k], r2[k]);
        CaseSlice(r1, r2, k + 1, |r1|);
        ParseExtCase(r1[k + 1..], r2[k + 1..]);
      }
      if k < |r1| && r1[k] != '\n' && ParseExt(r1[k + 1..]) != [] {
        SpanPrefix(r1, Digit, k);
        CaseSlice(r1, r2, 0, k);
        DigitsCase(r1[..k], r2[..k]);
      } else {
        ParseTailCase(r1, r2, k - 1);
      }
    }
  }

  /** Two results of matching with the same marker, groups 1 to 9, and a
      `.` and group 10 that differ at most in case. */
  predicate MatchAlike(a: Option<Match>, b: Option<Match>) {
    && a.None? == b.None?
    && (a.Some? ==>
          && a.value.at == b.value.at && a.value.groups == b.value.groups
          && a.value.delims == b.value.delims && a.value.page == b.value.page
          && Lower(a.value.dot) == Lower(b.value.dot) && SameUpToCase(a.value.ext, b.value.ext))
  }

  lemma FrameCaseless()
    ensures Caseless(Frame)
  {
  }

  lemma MatchAfterCase(p: nat, t1: string, t2: string)
    requires SameUpToCase(t1, t2)
    ensures MatchAlike(MatchAfter(p, t1), MatchAfter(p, t2))
  {
    FrameCaseless();
    ParseFrameCase(t1, t2, Frame);
    var f1 := ParseFrame(t1, Frame);
    var f2 := ParseFrame(t2, Frame);
    if f1.FrameRead? {
      SpanCase(f1.rest, f2.rest, Digit);
      ParseTailCase(f1.rest, f2.rest, Span(f1.rest, Digit));
    }
  }

  lemma MatchAtCase(s: string, t: string, p: nat)
    requires SameUpToCase(s, t) && 4 <= p <= |s|
    ensures MatchAlike(MatchAt(s, p), MatchAt(t, p))
  {
    LiteralsIgnoreCase(s, t, p);
    if MarkerAt(s, p) {
      CaseSlice(s, t, p + |Marker|, |s|);
      MatchAfterCase(p, s[p + |Marker|..], t[p + |Marker|..]);
    }
  }

  lemma {:induction false} SearchFromCase(s: string, t: string, p: nat)
    requires SameUpToCase(s, t) && 4 <= p <= |s|
    ensures MatchAlike(SearchFrom(s, p), SearchFrom(t, p))
    decreases p
  {
    MatchAtCase(s, t, p);
    if MatchAt(s, p).None? && p > 4 {
      SearchFromCase(s, t, p - 1);
    }
  }

  /** `re.I`: two links that differ only in the case of their letters give
      matches with the same marker and groups 1 to 9, and whose `.` and
      group 10 differ at most in case. */
  lemma SearchIgnoresCase(s: string, t: string)
    requires SameUpToCase(s, t)
    ensures MatchAlike(Search(s), Search(t))
  {
    LiteralsIgnoreCase(s, t, 0);
    if HttpPrefix(s) {
      CaseSlice(s, t, 4, |s|);
      SpanCase(s[4..], t[4..], NotNewline);
      SearchFromCase(s, t, 4 + Span(s[4..], NotNewline));
    }
  }
}
