/** The canonical file name `download_images_from_txt` builds from a matched
    download link (src/utils/parser.py:133-143): year, zero-padded month and
    day, zero-padded issue number and page, lower-case extension without a
    leading dot. */
module Normalizer {
  import opened Text
  import opened UrlPattern

  /** The fields of one normalised link, as the source names them. */
  datatype Name = Name(year: string, number: string, day: string, month: string, page: string, extension: string)

  /** `f"{year}-{month}-{day}"` */
  function Date(n: Name): string {
    n.year + "-" + n.month + "-" + n.day
  }

  /** `f"{date}_{number}_{page}.{extension}"` */
  function FileName(n: Name): string {
    Date(n) + "_" + n.number + "_" + n.page + "." + n.extension
  }

  /** The fields of a match: groups 1, 2, 3, 4, 9 and 10, padded. */
  function FromMatch(m: Match): Name
    requires |m.groups| == |Frame|
  {
    Name(m.groups[0], ZFill(m.groups[1], 3), ZFill(m.groups[2], 2), ZFill(m.groups[3], 2),
      ZFill(m.page, 2), LStrip(LowerStr(m.ext), '.'))
  }

  /** The link normalised, or `None` when the pattern does not match it. */
  function Normalize(link: string): Option<Name> {
    match Search(link)
    case None => None
    case Some(m) =>
      assert |m.groups| == |Frame| by {
        SearchSound(link);
        FitsLength(Frame, m.groups, m.delims);
      }
      Some(FromMatch(m))
  }

  /** `r` is `s.zfill(width)` for a digit string `s`: digits only, at least
      `width` of them, `s` preceded by nothing but zeros, the same number. */
  predicate Padded(r: string, s: string, width: nat) {
    && AllIn(r, Digit) && AllIn(s, Digit)
    && |r| == (if |s| >= width then |s| else width)
    && r[|r| - |s|..] == s
    && (forall i :: 0 <= i < |r| - |s| ==> r[i] == '0')
    && Value(r) == Value(s)
  }

  /** A link with no way of matching the pattern has no name, and every
      other link has one. */
  lemma NormalizeNoneIff(link: string)
    ensures Normalize(link).None? <==> forall m :: !IsMatch(link, m)
  {
    SearchFailsIffNoMatch(link);
  }

  /** The year is group 1 as written; number, day, month and page are groups
      2, 3, 4 and 9 padded with zeros to 3, 2, 2 and 2 digits, values kept
      and longer groups unchanged. */
  lemma NormalizePadding(link: string)
    requires Normalize(link).Some?
    ensures var m := Search(link).value; var n := Normalize(link).value;
      && |m.groups| == |Frame|
      && n.year == m.groups[0] && IsNumber(n.year)
      && Padded(n.number, m.groups[1], 3)
      && Padded(n.day, m.groups[2], 2)
      && Padded(n.month, m.groups[3], 2)
      && Padded(n.page, m.page, 2)
  {
    NormalizeOf(link);
    SearchSound(link);
    var m := Search(link).value;
    FitsAt(Frame, m.groups, m.delims, 0);
    FitsAt(Frame, m.groups, m.delims, 1);
    FitsAt(Frame, m.groups, m.delims, 2);
    FitsAt(Frame, m.groups, m.delims, 3);
    ZFillDigits(m.groups[1], 3);
    ZFillDigits(m.groups[2], 2);
    ZFillDigits(m.groups[3], 2);
    ZFillDigits(m.page, 2);
  }

  /** No character of `s` is an upper-case letter. */
  predicate NoUpper(s: string) {
    forall i :: 0 <= i < |s| ==> !('A' <= s[i] <= 'Z')
  }

  /** The extension is group 10 in lower case without its leading dot: a
      non-empty run of word characters with no upper-case letter. */
  lemma NormalizeExtension(link: string)
    requires Normalize(link).Some?
    ensures var m := Search(link).value; var e := Normalize(link).value.extension;
      && e != [] && AllIn(e, Word) && NoUpper(e)
      && (LowerStr(m.ext) == e || LowerStr(m.ext) == "." + e)
  {
    NormalizeOf(link);
    LowerExt(Search(link).value.ext);
  }

  /** The name of a matching link is the one built from the match `Search`
      returns. */
  lemma NormalizeOf(link: string)
    requires Search(link).Some?
    ensures |Search(link).value.groups| == |Frame|
    ensures Normalize(link) == Some(FromMatch(Search(link).value))
    ensures IsExt(Search(link).value.ext)
  {
    var m := Search(link).value;
    SearchSound(link);
    FitsLength(Frame, m.groups, m.delims);
  }

  /** `.lower().lstrip('.')` of a text group 10 can match. */
  lemma LowerExt(x: string)
    requires IsExt(x)
    ensures var e := LStrip(LowerStr(x), '.');
      && e != [] && AllIn(e, Word) && NoUpper(e)
      && (LowerStr(x) == e || LowerStr(x) == "." + e)
  {
    var l := LowerStr(x);
    forall i | 0 <= i < |x|
      ensures !('A' <= l[i] <= 'Z')
      ensures InClass(x[i], Word) ==> InClass(l[i], Word) && l[i] != '.'
      ensures x[i] == '.' ==> l[i] == '.'
    {
      LowerChar(x[i]);
    }
    var e := LStrip(l, '.');
    if AllIn(x, Word) {
      assert l[0] != '.';
      assert e == l;
    } else {
      assert l[0] == '.' && l[1] != '.';
      assert e == l[1..];
      assert l == "." + e;
    }
  }

  /** Lowering one character keeps it a word character, keeps a dot a dot,
      and never leaves an upper-case letter. */
  lemma LowerChar(c: char)
    ensures !('A' <= Lower(c) <= 'Z')
    ensures InClass(c, Word) ==> InClass(Lower(c), Word) && Lower(c) != '.'
    ensures c == '.' ==> Lower(c) == '.'
  {
  }

  /** With `re.I`, and the extension lower-cased, two links that differ
      only in the case of their letters get the same name. */
  lemma NormalizeIgnoresCase(s: string, t: string)
    requires SameUpToCase(s, t)
    ensures Normalize(s) == Normalize(t)
  {
    SearchIgnoresCase(s, t);
    if Search(s).Some? {
      NormalizeOf(s);
      NormalizeOf(t);
      var a := Search(s).value.ext;
      var b := Search(t).value.ext;
      assert LowerStr(a) == LowerStr(b);
    }
  }
}
