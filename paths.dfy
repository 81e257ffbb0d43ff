/**
 * Directory entries and the two pieces of `pathlib.PurePath` the scripts use to
 * pair an image with its caption: `suffix` (the extension) and `stem` (the
 * name without it). Both split a name at its last dot; a dot in first or last
 * position does not start an extension, so `.hidden` and `name.` have none.
 */
module Paths {
  import opened Options
  import opened Strings

  /** One result of `iterdir()` on the image directory: its base name and
      whether `is_file()` holds for it. */
  datatype Entry = Entry(name: string, isFile: bool)

  /** `name.rfind('.')`. */
  function LastDot(name: string): (r: Option<nat>)
    ensures r.Some? ==> r.value < |name|
  {
    if name == [] then None
    else if name[|name| - 1] == '.' then Some(|name| - 1)
    else LastDot(name[..|name| - 1])
  }

  /** `rfind` finds the last dot, or reports that there is none. */
  lemma {:induction false} LastDotFound(name: string)
    ensures var r := LastDot(name);
            && (r.Some? ==> name[r.value] == '.' && forall j :: r.value < j < |name| ==> name[j] != '.')
            && (r.None? ==> forall j :: 0 <= j < |name| ==> name[j] != '.')
  {
    if name != [] && name[|name| - 1] != '.' {
      var prefix := name[..|name| - 1];
      LastDotFound(prefix);
      assert forall j :: 0 <= j < |prefix| ==> prefix[j] == name[j];
    }
  }

  /** Where the extension starts; `|name|` when there is none. */
  function SuffixStart(name: string): (k: nat)
    ensures k <= |name|
  {
    match LastDot(name)
    case Some(i) => if 0 < i < |name| - 1 then i else |name|
    case None => |name|
  }

  /** Whether `name` has an extension: its last dot is neither its first nor its
      last character. */
  predicate HasSuffix(name: string)
  {
    LastDot(name).Some? && 0 < LastDot(name).value < |name| - 1
  }

  /** `Path(name).suffix`. */
  function Suffix(name: string): string
  {
    name[SuffixStart(name)..]
  }

  /** `Path(name).stem`. */
  function Stem(name: string): string
  {
    name[..SuffixStart(name)]
  }

  /** The suffix is empty, or a dot followed by at least one character and no
      further dot, taken from the end of the name; it is there exactly when
      the name's last dot is neither its first nor its last character; and
      the stem is what stands in front of it, non-empty for a non-empty name. */
  lemma SuffixShape(name: string)
    ensures var r := Suffix(name);
            && |r| <= |name| && r == name[|name| - |r|..]
            && (r != [] <==> HasSuffix(name))
            && (r != [] ==> |r| >= 2 && r[0] == '.' && forall j :: 1 <= j < |r| ==> r[j] != '.')
    ensures Stem(name) + Suffix(name) == name
    ensures name != [] ==> Stem(name) != []
  {
    LastDotFound(name);
  }

  /** The caption file name looked up for a stem: `f"{stem}.txt"`. */
  function TextName(stem: string): string
  {
    stem + ".txt"
  }

  /** The caption name of a non-empty stem splits back into that stem and the
      suffix `.txt`. */
  lemma TextNameSplits(stem: string)
    requires stem != []
    ensures Suffix(TextName(stem)) == ".txt"
    ensures Stem(TextName(stem)) == stem
  {
    var n := TextName(stem);
    assert n[|stem|] == '.';
    assert forall j :: |stem| < j < |n| ==> n[j] != '.';
    LastDotFound(n);
    assert LastDot(n) == Some(|stem|);
  }

  /** A caption name, lower-cased, has the suffix `.txt` or none at all; so no
      allow-list without those two holds it. */
  lemma TextNameSuffix(stem: string)
    ensures Lower(Suffix(TextName(stem))) in {"", ".txt"}
  {
    if stem != [] {
      TextNameSplits(stem);
      assert Lower(".txt") == ".txt";
    } else {
      var n := TextName(stem);
      assert n[0] == '.';
      assert forall j :: 0 < j < |n| ==> n[j] != '.';
      LastDotFound(n);
      assert LastDot(n) == Some(0);
    }
  }

  /** Different stems give different caption names. */
  lemma TextNameInjective(s: string, t: string)
    requires TextName(s) == TextName(t)
    ensures s == t
  {
    assert s == TextName(s)[..|TextName(s)| - 4];
  }

}
