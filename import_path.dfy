/**
 * `build_relative_import_path`: the dotted relative import through which
 * the generated hook reaches the user's integration file. A path is given
 * by its parts (`Path.parts`); the function refuses a target with a part
 * that is not an identifier, and otherwise writes one dot per part of the
 * current file (at least one), a separating dot, and the target's parts
 * joined by dots.
 */
module ImportPath {

  /** The import string, or the `ValueError` raised, carrying the offending parts. */
  datatype Outcome = Import(path: string) | InvalidParts(parts: seq<string>)

  predicate IsIdentStart(c: char) {
    'a' <= c <= 'z' || 'A' <= c <= 'Z' || c == '_'
  }

  predicate IsIdentChar(c: char) {
    IsIdentStart(c) || '0' <= c <= '9'
  }

  /** `str.isidentifier` over ASCII: a letter or underscore, then letters, digits and underscores. */
  predicate IsIdentifier(s: string) {
    |s| > 0 && IsIdentStart(s[0]) && forall i :: 1 <= i < |s| ==> IsIdentChar(s[i])
  }

  /** An identifier never holds the separator. */
  lemma IdentifierHasNoDot(s: string)
    requires IsIdentifier(s)
    ensures s != [] && '.' !in s
  {
    forall i | 0 <= i < |s|
      ensures s[i] != '.'
    {
      assert i == 0 || IsIdentChar(s[i]);
    }
  }

  /** `[part for part in parts if not part.isidentifier()]`. */
  function InvalidPartsOf(parts: seq<string>): (r: seq<string>)
    ensures forall x :: x in r ==> x in parts && !IsIdentifier(x)
    ensures r == [] <==> forall i :: 0 <= i < |parts| ==> IsIdentifier(parts[i])
  {
    if parts == [] then []
    else
      var last := parts[|parts| - 1];
      var init := InvalidPartsOf(parts[..|parts| - 1]);
      assert forall i :: 0 <= i < |parts| - 1 ==> parts[..|parts| - 1][i] == parts[i];
      init + (if IsIdentifier(last) then [] else [last])
  }

  /** `"." * n`. */
  function Dots(n: nat): (r: string)
    ensures |r| == n && forall i :: 0 <= i < n ==> r[i] == '.'
  {
    if n == 0 then "" else Dots(n - 1) + "."
  }

  /** `".".join(parts)`. */
  function Join(parts: seq<string>): (r: string) {
    if parts == [] then ""
    else if |parts| == 1 then parts[0]
    else parts[0] + "." + Join(parts[1..])
  }

  function BuildRelativeImportPath(current: seq<string>, target: seq<string>): (r: Outcome) {
    var invalid := InvalidPartsOf(target);
    if invalid != [] then InvalidParts(invalid)
    else
      var upLevels := |current|;
      var dotPrefix := if upLevels > 0 then Dots(upLevels) else ".";
      Import(dotPrefix + "." + Join(target))
  }

  /** The reading side: the number of leading dots of an import string. */
  function LeadingDots(s: string): (n: nat)
    ensures n <= |s| && forall i :: 0 <= i < n ==> s[i] == '.'
    ensures n < |s| ==> s[n] != '.'
  {
    if s == [] || s[0] != '.' then 0 else 1 + LeadingDots(s[1..])
  }

  /** `s.split(".")`: the pieces between the dots, an empty string for an empty piece. */
  function Split(s: string): (r: seq<string>)
    ensures |r| >= 1
  {
    if s == [] then [""]
    else
      var rest := Split(s[1..]);
      if s[0] == '.' then [""] + rest else [[s[0]] + rest[0]] + rest[1..]
  }

  /** An import string read back: its level and the dotted module path after the dots. */
  datatype Parsed = Parsed(level: nat, parts: seq<string>)

  function Parse(s: string): (r: Parsed) {
    var n := LeadingDots(s);
    Parsed(n, Split(s[n..]))
  }

  /** A piece without dots splits to itself, and so does a piece followed by a dot and the rest. */
  lemma {:induction false} SplitPiece(w: string, t: string)
    requires '.' !in w
    ensures Split(w) == [w]
    ensures Split(w + "." + t) == [w] + Split(t)
    decreases |w|
  {
    if w == [] {
      assert w + "." + t == ['.'] + t;
      assert (['.'] + t)[1..] == t;
    } else {
      SplitPiece(w[1..], t);
      assert (w + "." + t)[1..] == w[1..] + "." + t;
      assert [w[0]] + w[1..] == w;
    }
  }

  /** Joining parts without dots and splitting the result gives the parts back. */
  lemma {:induction false} SplitJoin(parts: seq<string>)
    requires parts != []
    requires forall i :: 0 <= i < |parts| ==> '.' !in parts[i]
    ensures Split(Join(parts)) == parts
    decreases |parts|
  {
    SplitPiece(parts[0], "");
    if |parts| > 1 {
      SplitJoin(parts[1..]);
      SplitPiece(parts[0], Join(parts[1..]));
    }
  }

  /** Leading dots are counted exactly when the text after them starts with something else. */
  lemma {:induction false} LeadingDotsOf(n: nat, rest: string)
    requires rest == [] || rest[0] != '.'
    ensures LeadingDots(Dots(n) + rest) == n
    ensures (Dots(n) + rest)[n..] == rest
  {
    if n > 0 {
      var s := Dots(n) + rest;
      assert s[1..] == Dots(n - 1) + rest by {
        assert Dots(n) == "." + Dots(n - 1) by { DotsFront(n); }
      }
      LeadingDotsOf(n - 1, rest);
    }
  }

  lemma {:induction false} DotsFront(n: nat)
    requires n > 0
    ensures Dots(n) == "." + Dots(n - 1)
  {
    if n > 1 {
      DotsFront(n - 1);
    }
  }

  /** A joined list of identifiers does not start with a dot. */
  lemma {:induction false} JoinStart(parts: seq<string>)
    requires parts != [] && IsIdentifier(parts[0])
    ensures Join(parts) != [] && Join(parts)[0] != '.'
  {
    IdentifierHasNoDot(parts[0]);
    if |parts| > 1 {
      var j := Join(parts);
      assert j == parts[0] + "." + Join(parts[1..]);
      assert j[0] == parts[0][0];
    }
  }

  /** The error is raised exactly when some part of the target is not an identifier, and names every such part. */
  lemma BuildFailsIffInvalid(current: seq<string>, target: seq<string>)
    ensures BuildRelativeImportPath(current, target).InvalidParts? <==>
      exists i :: 0 <= i < |target| && !IsIdentifier(target[i])
    ensures BuildRelativeImportPath(current, target).InvalidParts? ==>
      var bad := BuildRelativeImportPath(current, target).parts;
      bad != [] &&
      (forall x :: x in bad ==> x in target && !IsIdentifier(x)) &&
      (forall i :: 0 <= i < |target| && !IsIdentifier(target[i]) ==> target[i] in bad)
  {
    var bad := InvalidPartsOf(target);
    forall i | 0 <= i < |target| && !IsIdentifier(target[i])
      ensures target[i] in bad
    {
      InvalidPartsHolds(target, i);
    }
  }

  lemma {:induction false} InvalidPartsHolds(parts: seq<string>, i: nat)
    requires i < |parts| && !IsIdentifier(parts[i])
    ensures parts[i] in InvalidPartsOf(parts)
    decreases |parts|
  {
    if i < |parts| - 1 {
      assert parts[..|parts| - 1][i] == parts[i];
      InvalidPartsHolds(parts[..|parts| - 1], i);
    }
  }

  /**
   * A valid target reads back from the import string: one dot per part of
   * the current file (one at least) and the separator, then exactly the
   * target's parts in their order.
   */
  lemma ParseBuild(current: seq<string>, target: seq<string>)
    requires target != []
    requires forall i :: 0 <= i < |target| ==> IsIdentifier(target[i])
    ensures BuildRelativeImportPath(current, target).Import?
    ensures Parse(BuildRelativeImportPath(current, target).path) ==
      Parsed((if |current| > 0 then |current| else 1) + 1, target)
  {
    var n := if |current| > 0 then |current| else 1;
    var rest := Join(target);
    assert (if |current| > 0 then Dots(|current|) else ".") == Dots(n);
    assert Dots(n) + "." + rest == Dots(n + 1) + rest;
    JoinStart(target);
    LeadingDotsOf(n + 1, rest);
    forall i | 0 <= i < |target|
      ensures '.' !in target[i]
    {
      IdentifierHasNoDot(target[i]);
    }
    SplitJoin(target);
  }

  /** An empty target still imports: the prefix and the separator, with one empty module name after them. */
  lemma ParseBuildEmptyTarget(current: seq<string>)
    ensures BuildRelativeImportPath(current, []).Import?
    ensures Parse(BuildRelativeImportPath(current, []).path) ==
      Parsed((if |current| > 0 then |current| else 1) + 1, [""])
  {
    var n := if |current| > 0 then |current| else 1;
    assert (if |current| > 0 then Dots(|current|) else ".") == Dots(n);
    assert Dots(n) + "." + Join([]) == Dots(n + 1) + "";
    LeadingDotsOf(n + 1, "");
  }
}
