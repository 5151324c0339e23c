/** Relative paths as sequences of segments, and the parts of a file name
    that Python's `PurePath` exposes: `name`, `parent`, `suffix` and `stem`.
    Case conversion is the ASCII part of `str.lower` / `str.upper`. */
module PurePaths {

  /** A relative path: its segments, root first.  The empty path is `.`. */
  type Path = seq<string>

  /** `PurePath.name`: the last segment, or "" for `.`. */
  function Name(p: Path): string
  {
    if p == [] then "" else p[|p| - 1]
  }

  /** `PurePath.parent`: every segment but the last; `.` is its own parent. */
  function Parent(p: Path): Path
  {
    if p == [] then [] else p[..|p| - 1]
  }

  lemma ParentName(p: Path)
    requires p != []
    ensures Parent(p) + [Name(p)] == p
    ensures |Parent(p)| == |p| - 1
  {
  }

  /** `str.rfind('.')`: the index of the last dot, or -1 when there is none. */
  function LastDot(s: string): (i: int)
    ensures -1 <= i < |s|
    ensures 0 <= i ==> s[i] == '.'
    ensures forall j :: i < j < |s| ==> s[j] != '.'
  {
    if s == [] then -1
    else if s[|s| - 1] == '.' then |s| - 1
    else LastDot(s[..|s| - 1])
  }

  /** The last dot of a name is the one after which no dot follows. */
  lemma LastDotAt(s: string, k: nat)
    requires k < |s| && s[k] == '.'
    requires forall j :: k < j < |s| ==> s[j] != '.'
    ensures LastDot(s) == k
  {
  }

  /** Whether a name has a suffix: its last dot is neither the first nor the
      last character. */
  predicate HasSuffix(name: string)
  {
    0 < LastDot(name) < |name| - 1
  }

  /** `PurePath.suffix`: from the last dot on; "" for `.docx`, `notes` and `a.`. */
  function Suffix(name: string): string
  {
    if HasSuffix(name) then name[LastDot(name)..] else ""
  }

  /** `PurePath.stem`: the name without its suffix. */
  function Stem(name: string): string
  {
    if HasSuffix(name) then name[..LastDot(name)] else name
  }

  /** A name splits into its stem followed by its suffix; a suffix is empty
      or starts with its only dot, and then the stem is not empty. */
  lemma StemSuffix(name: string)
    ensures Stem(name) + Suffix(name) == name
    ensures Suffix(name) == "" || (|Suffix(name)| >= 2 && Suffix(name)[0] == '.' && Stem(name) != "")
    ensures forall j :: 0 < j < |Suffix(name)| ==> Suffix(name)[j] != '.'
  {
  }

  /** Appending `.pdf` to a non-empty stem gives a name with that stem and
      the suffix `.pdf`. */
  lemma {:induction false} PdfName(stem: string)
    requires stem != ""
    ensures Suffix(stem + ".pdf") == ".pdf"
    ensures Stem(stem + ".pdf") == stem
  {
    var s := stem + ".pdf";
    var i := LastDot(s);
    assert s[|stem|] == '.';
    assert s[|stem| + 1] == 'p' && s[|stem| + 2] == 'd' && s[|stem| + 3] == 'f';
    assert i == |stem|;
    assert s[i..] == ".pdf";
    assert s[..i] == stem;
  }

  function LowerChar(c: char): char
  {
    if 'A' <= c <= 'Z' then (c as int - 'A' as int + 'a' as int) as char else c
  }

  function UpperChar(c: char): char
  {
    if 'a' <= c <= 'z' then (c as int - 'a' as int + 'A' as int) as char else c
  }

  /** `str.lower` on ASCII letters; every other character is kept. */
  function Lower(s: string): string
  {
    seq(|s|, i requires 0 <= i < |s| => LowerChar(s[i]))
  }

  /** `str.upper` on ASCII letters; every other character is kept. */
  function Upper(s: string): string
  {
    seq(|s|, i requires 0 <= i < |s| => UpperChar(s[i]))
  }

  /** Upper-casing forgets how a string was cased, so the upper-cased form is
      determined by the lower-cased one. */
  lemma UpperOfLower(s: string)
    ensures Upper(Lower(s)) == Upper(s)
  {
    var a, b := Upper(Lower(s)), Upper(s);
    forall i | 0 <= i < |s|
      ensures a[i] == b[i]
    {
    }
  }

  /** Case conversion of a string given character by character. */
  lemma LowerLiteral(s: string, t: string)
    requires |s| == |t| && forall i :: 0 <= i < |s| ==> LowerChar(s[i]) == t[i]
    ensures Lower(s) == t
  {
  }

  lemma UpperLiteral(s: string, t: string)
    requires |s| == |t| && forall i :: 0 <= i < |s| ==> UpperChar(s[i]) == t[i]
    ensures Upper(s) == t
  {
  }

  /** `str.startswith('.')` */
  predicate StartsWithDot(name: string)
  {
    |name| > 0 && name[0] == '.'
  }
}
