/**
 * `match_and_save_pairs` (match_image_text_pairs.py): index the image
 * directory by stem, then walk the index in insertion order and, while the
 * optional cap `max_pairs` is not reached, copy each image with a caption
 * `<stem>.txt` into the output together with that caption, or record the image
 * as unmatched.
 */
module MatchPairs {
  import opened Options
  import opened Strings
  import opened Paths
  import opened OutputFolder

  /** The fixed allow-set of image suffixes. */
  const ImageExtensions: set<string> := {".jpg", ".jpeg", ".png", ".gif", ".bmp", ".tiff", ".webp"}

  /** An entry the index takes in: a regular file whose lower-cased suffix is allowed. */
  predicate IsImage(e: Entry)
  {
    e.isFile && Lower(Suffix(e.name)) in ImageExtensions
  }

  /** (stem, image name): an image as the index stores it. */
  type Item = (string, string)

  /** The images of a listing in listing order, each with its stem: what the
      first loop feeds into `image_files`. */
  function Images(listing: seq<Entry>): (images: seq<Item>)
    ensures |images| <= |listing|
  {
    if listing == [] then []
    else
      var e := listing[|listing| - 1];
      Images(listing[..|listing| - 1]) + (if IsImage(e) then [(Stem(e.name), e.name)] else [])
  }

  /** The images are exactly the listed regular files with an allowed suffix,
      each paired with its stem. */
  lemma {:induction false} ImagesMembers(listing: seq<Entry>, x: Item)
    ensures x in Images(listing) <==>
            exists i :: 0 <= i < |listing| && IsImage(listing[i]) && x == (Stem(listing[i].name), listing[i].name)
  {
    if listing != [] {
      var n := |listing| - 1;
      ImagesMembers(listing[..n], x);
      assert forall i :: 0 <= i < n ==> listing[..n][i] == listing[i];
    }
  }

  /** The dictionary `image_files`: `files` maps a stem to an image name and
      `order` lists the keys in the order a Python dict iterates them, the
      order of first insertion. */
  datatype StemIndex = StemIndex(order: seq<string>, files: map<string, string>)
  {
    /** Every listed key has a value. */
    predicate Wf()
    {
      forall i :: 0 <= i < |order| ==> order[i] in files
    }

    /** `image_files.items()`: (stem, image name) pairs in iteration order. */
    function Items(): (items: seq<Item>)
      requires Wf()
      ensures |items| == |order|
      ensures forall i :: 0 <= i < |items| ==> items[i] == (order[i], files[order[i]])
    {
      seq(|order|, i requires 0 <= i < |order| => (order[i], files[order[i]]))
    }
  }

  /** `image_files[stem] = name` for each image in turn: a new key goes last,
      an existing key keeps its place and takes the new value. */
  function IndexOf(images: seq<Item>): (d: StemIndex)
    ensures d.Wf()
    ensures |d.order| <= |images|
  {
    if images == [] then StemIndex([], map[])
    else
      var d := IndexOf(images[..|images| - 1]);
      var x := images[|images| - 1];
      StemIndex(if x.0 in d.files then d.order else d.order + [x.0], d.files[x.0 := x.1])
  }

  /** `order` lists every key of the dictionary exactly once, so the total
      printed, `len(image_files)`, is both the number of keys and the length of
      the iteration. */
  lemma {:induction false} IndexExact(images: seq<Item>)
    ensures forall s :: s in IndexOf(images).files ==> s in IndexOf(images).order
    ensures forall i, j :: 0 <= i < j < |IndexOf(images).order| ==> IndexOf(images).order[i] != IndexOf(images).order[j]
  {
    if images != [] {
      var prefix, x := images[..|images| - 1], images[|images| - 1];
      IndexExact(prefix);
      var d0, d := IndexOf(prefix), IndexOf(images);
      assert d.files == d0.files[x.0 := x.1];
      if x.0 in d0.files {
        assert d.order == d0.order;
      } else {
        assert d.order == d0.order + [x.0];
        assert forall i :: 0 <= i < |d0.order| ==> d.order[i] == d0.order[i];
      }
    }
  }

  /** The dictionary the first loop of `match_and_save_pairs` builds. */
  function ImageIndex(listing: seq<Entry>): StemIndex
  {
    IndexOf(Images(listing))
  }

  /** Image `i` has stem `s`. */
  predicate HasStem(images: seq<Item>, i: int, s: string)
  {
    0 <= i < |images| && images[i].0 == s
  }

  /** The index has a key for exactly the stems of the images. */
  lemma {:induction false} IndexKeys(images: seq<Item>, s: string)
    ensures s in IndexOf(images).files <==> exists i :: HasStem(images, i, s)
  {
    if images != [] {
      var n := |images| - 1;
      var prefix := images[..n];
      IndexKeys(prefix, s);
      assert forall i :: 0 <= i < n ==> prefix[i] == images[i];
      assert IndexOf(images).files == IndexOf(prefix).files[images[n].0 := images[n].1];
      if s == images[n].0 {
        assert HasStem(images, n, s);
      }
      if s in IndexOf(prefix).files {
        var i :| HasStem(prefix, i, s);
        assert HasStem(images, i, s);
      }
      if exists i :: HasStem(images, i, s) {
        var i :| HasStem(images, i, s);
        if i < n {
          assert HasStem(prefix, i, s);
        }
      }
    }
  }

  /** Assigning one more image extends the dictionary as `IndexOf` says. */
  lemma IndexOfAppend(images: seq<Item>, x: Item)
    ensures var d := IndexOf(images);
            IndexOf(images + [x]) == StemIndex(if x.0 in d.files then d.order else d.order + [x.0], d.files[x.0 := x.1])
  {
    assert (images + [x])[..|images|] == images;
  }

  /** The key of a stem holds the name of the LAST image with that stem
      (assignment to an existing key overwrites its value). */
  lemma {:induction false} IndexLastWins(images: seq<Item>, s: string)
    requires s in IndexOf(images).files
    ensures exists i :: && HasStem(images, i, s)
                        && images[i].1 == IndexOf(images).files[s]
                        && forall j :: i < j < |images| ==> images[j].0 != s
  {
    var n := |images| - 1;
    var prefix := images[..n];
    if images[n].0 != s {
      IndexLastWins(prefix, s);
      var i :| && HasStem(prefix, i, s)
               && prefix[i].1 == IndexOf(prefix).files[s]
               && forall j :: i < j < n ==> prefix[j].0 != s;
      assert forall j :: 0 <= j < n ==> prefix[j] == images[j];
      assert HasStem(images, i, s);
    }
  }

  /** The position of the first image with stem `s`; `|images|` if none. */
  function FirstWithStem(images: seq<Item>, s: string): (k: nat)
    ensures k <= |images|
    ensures k < |images| ==> images[k].0 == s
    ensures forall j :: 0 <= j < k ==> images[j].0 != s
  {
    if images == [] then 0
    else
      var n := |images| - 1;
      var k := FirstWithStem(images[..n], s);
      assert forall j :: 0 <= j < n ==> images[..n][j] == images[j];
      if k < n then k else if images[n].0 == s then n else n + 1
  }

  /** Iteration follows first appearance: of two keys, the earlier one is the
      stem of an earlier image. This holds although a later image with the
      same stem replaces the stored name. */
  lemma {:induction false} IndexOrder(images: seq<Item>)
    ensures forall a, b :: 0 <= a < b < |IndexOf(images).order| ==>
              FirstWithStem(images, IndexOf(images).order[a]) < FirstWithStem(images, IndexOf(images).order[b])
  {
    if images != [] {
      var n := |images| - 1;
      var prefix := images[..n];
      IndexOrder(prefix);
      var d0, d := IndexOf(prefix), IndexOf(images);
      assert forall j :: 0 <= j < n ==> prefix[j] == images[j];
      forall k | 0 <= k < |d0.order|
        ensures FirstWithStem(images, d0.order[k]) == FirstWithStem(prefix, d0.order[k]) < n
      {
        IndexKeys(prefix, d0.order[k]);
      }
      var s := images[n].0;
      if s !in d0.files {
        IndexKeys(prefix, s);
        assert !HasStem(prefix, FirstWithStem(prefix, s), s);
        assert FirstWithStem(images, s) == n;
        assert d.order == d0.order + [s];
      }
    }
  }

  /** The caption `<stem>.txt` of the item is present in the text directory. */
  predicate HasText(item: Item, text: set<string>)
  {
    TextName(item.0) in text
  }

  /** The loop's variables: `matched_pairs`, `unmatched_images`, and the output's entries. */
  datatype MatchState = MatchState(matched: nat, unmatched: seq<string>, out: map<string, Artifact>)

  /** One iteration past the cap check: copy image and caption, or record the image. */
  function Step(st: MatchState, item: Item, text: set<string>): MatchState
  {
    if HasText(item, text) then
      var caption := TextName(item.0);
      MatchState(st.matched + 1, st.unmatched,
                 st.out[item.1 := CopyOf(ImageDir, item.1)][caption := CopyOf(TextDir, caption)])
    else
      MatchState(st.matched, st.unmatched + [item.1], st.out)
  }

  /** The second loop from state `st` over `items`, stopping before an item
      once `max_pairs` is set and `matched_pairs >= max_pairs`. */
  function RunMatch(items: seq<Item>, text: set<string>, maxPairs: Option<int>, st: MatchState): MatchState
  {
    if items == [] then st
    else if maxPairs.Some? && st.matched >= maxPairs.value then st
    else RunMatch(items[1..], text, maxPairs, Step(st, items[0], text))
  }

  // Reference definitions of what a pass over items does, without the loop.

  /** How many items have a caption. */
  function PairedCount(items: seq<Item>, text: set<string>): nat
  {
    if items == [] then 0 else (if HasText(items[0], text) then 1 else 0) + PairedCount(items[1..], text)
  }

  /** The image names of the items without a caption, in order. */
  function MissingImages(items: seq<Item>, text: set<string>): seq<string>
  {
    if items == [] then [] else (if HasText(items[0], text) then [] else [items[0].1]) + MissingImages(items[1..], text)
  }

  /** The image names of the items with a caption. */
  function PairedImages(items: seq<Item>, text: set<string>): set<string>
  {
    set i | 0 <= i < |items| && HasText(items[i], text) :: items[i].1
  }

  /** The caption names of the items with a caption. */
  function PairedTexts(items: seq<Item>, text: set<string>): set<string>
  {
    set i | 0 <= i < |items| && HasText(items[i], text) :: TextName(items[i].0)
  }

  lemma PairedSetsCons(items: seq<Item>, text: set<string>)
    requires items != []
    ensures PairedImages(items, text) == (if HasText(items[0], text) then {items[0].1} else {}) + PairedImages(items[1..], text)
    ensures PairedTexts(items, text) == (if HasText(items[0], text) then {TextName(items[0].0)} else {}) + PairedTexts(items[1..], text)
  {
    var rest := items[1..];
    assert forall i :: 1 <= i < |items| ==> items[i] == rest[i - 1];
    assert forall i :: 0 <= i < |rest| ==> rest[i] == items[i + 1];
  }

  /** Every item has a caption or is missing one. */
  lemma {:induction false} PairedPlusMissing(items: seq<Item>, text: set<string>)
    ensures PairedCount(items, text) + |MissingImages(items, text)| == |items|
  {
    if items != [] {
      PairedPlusMissing(items[1..], text);
    }
  }

  /** Without a cap the loop visits every item: it counts the captioned ones
      and lists the others' images, in order. */
  lemma {:induction false} RunUncappedCounts(items: seq<Item>, text: set<string>, st: MatchState)
    ensures RunMatch(items, text, None, st).matched == st.matched + PairedCount(items, text)
    ensures RunMatch(items, text, None, st).unmatched == st.unmatched + MissingImages(items, text)
  {
    if items != [] {
      RunUncappedCounts(items[1..], text, Step(st, items[0], text));
    }
  }

  /** Without a cap the output gains exactly the names of the captioned items'
      images and captions. */
  lemma {:induction false} RunUncappedNames(items: seq<Item>, text: set<string>, st: MatchState)
    ensures RunMatch(items, text, None, st).out.Keys == st.out.Keys + PairedImages(items, text) + PairedTexts(items, text)
  {
    if items != [] {
      RunUncappedNames(items[1..], text, Step(st, items[0], text));
      PairedSetsCons(items, text);
    }
  }

  /** Without a cap every name the loop writes holds a copy of the same-named
      file of the image or of the text directory, and every other entry of the
      output is left as it was. */
  lemma {:induction false} RunUncappedContents(items: seq<Item>, text: set<string>, st: MatchState, n: string)
    requires n in RunMatch(items, text, None, st).out
    ensures var r := RunMatch(items, text, None, st);
            || (n !in PairedImages(items, text) && n !in PairedTexts(items, text) && n in st.out && r.out[n] == st.out[n])
            || (n in PairedImages(items, text) && r.out[n] == CopyOf(ImageDir, n))
            || (n in PairedTexts(items, text) && r.out[n] == CopyOf(TextDir, n))
  {
    if items != [] {
      var st' := Step(st, items[0], text);
      RunUncappedContents(items[1..], text, st', n);
      PairedSetsCons(items, text);
    } 
  }

  function Min(a: int, b: int): int { if a <= b then a else b }
  function Max(a: int, b: int): int { if a <= b then b else a }

  /** How many items the capped loop gets through with `budget` more pairs
      allowed: the shortest prefix holding `budget` captioned items, or all. */
  function CapStop(items: seq<Item>, text: set<string>, budget: int): (p: nat)
    ensures p <= |items|
    ensures PairedCount(items[..p], text) == Min(Max(budget, 0), PairedCount(items, text))
    ensures p < |items| ==> PairedCount(items[..p], text) >= budget
    ensures forall q :: 0 <= q < p ==> PairedCount(items[..q], text) < budget
  {
    if items == [] || budget <= 0 then 0
    else
      var h := if HasText(items[0], text) then 1 else 0;
      var p := 1 + CapStop(items[1..], text, budget - h);
      assert items[..p][1..] == items[1..][..p - 1];
      assert forall q :: 1 <= q <= p ==> items[..q][1..] == items[1..][..q - 1];
      p
  }

  /** The capped loop is the uncapped loop over the prefix `CapStop` picks:
      once the cap is reached the remaining items are neither matched nor
      reported unmatched. */
  lemma {:induction false} RunCapped(items: seq<Item>, text: set<string>, cap: int, st: MatchState)
    ensures RunMatch(items, text, Some(cap), st)
            == RunMatch(items[..CapStop(items, text, cap - st.matched)], text, None, st)
  {
    var p := CapStop(items, text, cap - st.matched);
    if items != [] && st.matched < cap {
      var st' := Step(st, items[0], text);
      RunCapped(items[1..], text, cap, st');
      assert items[..p][1..] == items[1..][..p - 1];
    }
  }

  /** From a fresh state, a cap `c` lets through exactly `min(max(c, 0), k)`
      pairs where `k` items have a caption, and a cap `c <= 0` leaves
      everything untouched. */
  lemma CapCounts(items: seq<Item>, text: set<string>, cap: int, out0: map<string, Artifact>)
    ensures var r := RunMatch(items, text, Some(cap), MatchState(0, [], out0));
            && r.matched == Min(Max(cap, 0), PairedCount(items, text))
            && r.matched + |r.unmatched| <= |items|
            && (cap <= 0 ==> r == MatchState(0, [], out0))
  {
    var st := MatchState(0, [], out0);
    var p := CapStop(items, text, cap);
    RunCapped(items, text, cap, st);
    RunUncappedCounts(items[..p], text, st);
    PairedPlusMissing(items[..p], text);
  }

  /** Each item of the index is a listed image: a regular file with an
      allowed suffix, stored under its own stem. */
  lemma IndexItem(listing: seq<Entry>, i: int)
    requires 0 <= i < |ImageIndex(listing).order|
    ensures exists k :: 0 <= k < |listing| && IsImage(listing[k])
                        && ImageIndex(listing).Items()[i] == (Stem(listing[k].name), listing[k].name)
  {
    var images := Images(listing);
    var s := ImageIndex(listing).order[i];
    IndexLastWins(images, s);
    var j :| HasStem(images, j, s) && images[j].1 == IndexOf(images).files[s];
    ImagesMembers(listing, images[j]);
  }

  /** The loop of `match_and_save_pairs` never lets an image name clash with a
      caption name: every indexed name has an allowed image suffix, and a
      caption name's suffix is `.txt` or empty. */
  lemma IndexNamesNotCaptions(listing: seq<Entry>, i: int, j: int)
    requires 0 <= i < |ImageIndex(listing).order| && 0 <= j < |ImageIndex(listing).order|
    ensures ImageIndex(listing).Items()[i].1 != TextName(ImageIndex(listing).Items()[j].0)
  {
    var items := ImageIndex(listing).Items();
    IndexItem(listing, i);
    TextNameSuffix(items[j].0);
    CaptionSuffixNotAllowed();
  }

  /** Items shaped as the index yields them: distinct stems, each image name
      carrying its own stem, and no image name equal to a caption name. */
  predicate IndexLike(items: seq<Item>)
  {
    && (forall i, j :: 0 <= i < j < |items| ==> items[i].0 != items[j].0)
    && (forall i :: 0 <= i < |items| ==> Stem(items[i].1) == items[i].0)
    && (forall i, j :: 0 <= i < |items| && 0 <= j < |items| ==> items[i].1 != TextName(items[j].0))
  }

  lemma IndexIsIndexLike(listing: seq<Entry>)
    ensures IndexLike(ImageIndex(listing).Items())
  {
    var items := ImageIndex(listing).Items();
    IndexExact(Images(listing));
    forall i | 0 <= i < |items| ensures Stem(items[i].1) == items[i].0 {
      IndexItem(listing, i);
    }
    forall i, j | 0 <= i < |items| && 0 <= j < |items| ensures items[i].1 != TextName(items[j].0) {
      IndexNamesNotCaptions(listing, i, j);
    }
  }

  /** The image names of missing-caption items are those of the items without a caption. */
  lemma {:induction false} MissingMembers(items: seq<Item>, text: set<string>, x: string)
    ensures x in MissingImages(items, text) <==> exists i :: 0 <= i < |items| && items[i].1 == x && !HasText(items[i], text)
  {
    if items != [] {
      MissingMembers(items[1..], text, x);
      assert forall i :: 1 <= i < |items| ==> items[i] == items[1..][i - 1];
      if exists i :: 0 <= i < |items| && items[i].1 == x && !HasText(items[i], text) {
        var i :| 0 <= i < |items| && items[i].1 == x && !HasText(items[i], text);
        if i > 0 {
          assert items[1..][i - 1] == items[i];
        }
      }
    }
  }

  /** For index-shaped items and no cap, what happens to one item: with a
      caption, the output holds copies of it and of its caption under their
      own names; without, its image name is reported and neither its name nor
      its caption's name is touched in the output. */
  lemma UncappedItemOutcome(items: seq<Item>, text: set<string>, st: MatchState, i: int)
    requires IndexLike(items) && 0 <= i < |items|
    ensures var r := RunMatch(items, text, None, st);
            var item := items[i];
            var caption := TextName(item.0);
            if HasText(item, text) then
              && item.1 in r.out && r.out[item.1] == CopyOf(ImageDir, item.1)
              && caption in r.out && r.out[caption] == CopyOf(TextDir, caption)
            else
              && item.1 in r.unmatched
              && (item.1 in r.out <==> item.1 in st.out)
              && (item.1 in st.out ==> r.out[item.1] == st.out[item.1])
              && (caption in r.out <==> caption in st.out)
              && (caption in st.out ==> r.out[caption] == st.out[caption])
  {
    var r := RunMatch(items, text, None, st);
    var item := items[i];
    var caption := TextName(item.0);
    RunUncappedNames(items, text, st);
    RunUncappedCounts(items, text, st);
    // The image name is written only as this item's own image.
    assert item.1 !in PairedTexts(items, text);
    assert item.1 in PairedImages(items, text) ==> HasText(item, text) by {
      if item.1 in PairedImages(items, text) {
        var j :| 0 <= j < |items| && HasText(items[j], text) && items[j].1 == item.1;
        assert Stem(items[j].1) == items[j].0;
        assert j == i;
      }
    }
    // The caption name is written only as this item's own caption.
    assert caption !in PairedImages(items, text);
    assert caption in PairedTexts(items, text) ==> HasText(item, text) by {
      if caption in PairedTexts(items, text) {
        var j :| 0 <= j < |items| && HasText(items[j], text) && TextName(items[j].0) == caption;
        TextNameInjective(items[j].0, item.0);
        assert j == i;
      }
    }
    if HasText(item, text) {
      assert item.1 in PairedImages(items, text);
      assert caption in PairedTexts(items, text);
      RunUncappedContents(items, text, st, item.1);
      RunUncappedContents(items, text, st, caption);
    } else {
      MissingMembers(items, text, item.1);
      if item.1 in st.out {
        RunUncappedContents(items, text, st, item.1);
      }
      if caption in st.out {
        RunUncappedContents(items, text, st, caption);
      }
    }
  }

  /** How many items the loop gets through: all of them without a cap, else
      the prefix `CapStop` picks. */
  function Processed(items: seq<Item>, text: set<string>, maxPairs: Option<int>): (p: nat)
    ensures p <= |items|
  {
    match maxPairs
    case None => |items|
    case Some(cap) => CapStop(items, text, cap)
  }

  /** From a fresh state, the loop is the uncapped loop over the processed prefix. */
  lemma RunProcessed(items: seq<Item>, text: set<string>, maxPairs: Option<int>, out0: map<string, Artifact>)
    ensures RunMatch(items, text, maxPairs, MatchState(0, [], out0))
            == RunMatch(items[..Processed(items, text, maxPairs)], text, None, MatchState(0, [], out0))
  {
    if maxPairs.Some? {
      RunCapped(items, text, maxPairs.value, MatchState(0, [], out0));
    } else {
      assert items[..|items|] == items;
    }
  }

  /** The loop's final state for a listing, a text directory, a cap and the
      output's prior entries. */
  function MatchOutcome(listing: seq<Entry>, text: set<string>, maxPairs: Option<int>, out0: map<string, Artifact>): MatchState
  {
    RunMatch(ImageIndex(listing).Items(), text, maxPairs, MatchState(0, [], out0))
  }

  /** The printed counts: matched plus unmatched never exceeds the number of
      distinct stems, which never exceeds the number of images, and is equal
      to it without a cap; with a cap `c` exactly `min(max(c, 0), k)` pairs are
      made where `k` stems have a caption, none at all when `c <= 0`. */
  lemma ReportCounts(listing: seq<Entry>, text: set<string>, maxPairs: Option<int>, out0: map<string, Artifact>)
    ensures var r := MatchOutcome(listing, text, maxPairs, out0);
            var total := |ImageIndex(listing).order|;
            && r.matched + |r.unmatched| <= total <= |Images(listing)|
            && (maxPairs.None? ==> r.matched + |r.unmatched| == total)
            && (maxPairs.Some? ==> r.matched == Min(Max(maxPairs.value, 0), PairedCount(ImageIndex(listing).Items(), text)))
            && (maxPairs.Some? && maxPairs.value <= 0 ==> r == MatchState(0, [], out0))
  {
    var items := ImageIndex(listing).Items();
    var p := Processed(items, text, maxPairs);
    RunProcessed(items, text, maxPairs, out0);
    RunUncappedCounts(items[..p], text, MatchState(0, [], out0));
    PairedPlusMissing(items[..p], text);
    if maxPairs.Some? {
      CapCounts(items, text, maxPairs.value, out0);
    }
  }

  /** Each stem the loop reaches (every stem without a cap) ends up as the
      source promises: with `<stem>.txt` present the output holds copies of
      the image and the caption under their own names; without it the image
      is reported unmatched and neither name is touched in the output. */
  lemma ReachedStemOutcome(listing: seq<Entry>, text: set<string>, maxPairs: Option<int>, out0: map<string, Artifact>, i: int)
    requires 0 <= i < Processed(ImageIndex(listing).Items(), text, maxPairs)
    ensures var r := MatchOutcome(listing, text, maxPairs, out0);
            var item := ImageIndex(listing).Items()[i];
            var caption := TextName(item.0);
            if caption in text then
              && item.1 in r.out && r.out[item.1] == CopyOf(ImageDir, item.1)
              && caption in r.out && r.out[caption] == CopyOf(TextDir, caption)
            else
              && item.1 in r.unmatched
              && (item.1 in r.out <==> item.1 in out0)
              && (item.1 in out0 ==> r.out[item.1] == out0[item.1])
              && (caption in r.out <==> caption in out0)
              && (caption in out0 ==> r.out[caption] == out0[caption])
  {
    var items := ImageIndex(listing).Items();
    var p := Processed(items, text, maxPairs);
    RunProcessed(items, text, maxPairs, out0);
    IndexIsIndexLike(listing);
    assert items[..p][i] == items[i];
    UncappedItemOutcome(items[..p], text, MatchState(0, [], out0), i);
  }

  /** Every reported name is a listed image whose caption is absent. */
  lemma UnmatchedLackCaption(listing: seq<Entry>, text: set<string>, maxPairs: Option<int>, out0: map<string, Artifact>, u: string)
    requires u in MatchOutcome(listing, text, maxPairs, out0).unmatched
    ensures TextName(Stem(u)) !in text
    ensures exists k :: 0 <= k < |listing| && IsImage(listing[k]) && listing[k].name == u
  {
    var items := ImageIndex(listing).Items();
    var p := Processed(items, text, maxPairs);
    RunProcessed(items, text, maxPairs, out0);
    RunUncappedCounts(items[..p], text, MatchState(0, [], out0));
    MissingMembers(items[..p], text, u);
    var i :| 0 <= i < p && items[..p][i].1 == u && !HasText(items[..p][i], text);
    assert items[..p][i] == items[i];
    IndexItem(listing, i);
  }

  /** Whatever the output holds afterwards is what it held before, or a copy
      of a listed image whose caption is present, or a copy of a present
      caption of a listed image; a caption without an image is never copied. */
  lemma OutputHoldsOnlyPairs(listing: seq<Entry>, text: set<string>, maxPairs: Option<int>, out0: map<string, Artifact>, n: string)
    requires n in MatchOutcome(listing, text, maxPairs, out0).out
    ensures || (n in out0 && MatchOutcome(listing, text, maxPairs, out0).out[n] == out0[n])
            || (&& MatchOutcome(listing, text, maxPairs, out0).out[n] == CopyOf(ImageDir, n)
                && TextName(Stem(n)) in text
                && exists k :: 0 <= k < |listing| && IsImage(listing[k]) && listing[k].name == n)
            || (&& MatchOutcome(listing, text, maxPairs, out0).out[n] == CopyOf(TextDir, n)
                && n in text
                && exists k :: 0 <= k < |listing| && IsImage(listing[k]) && n == TextName(Stem(listing[k].name)))
  {
    var items := ImageIndex(listing).Items();
    var p := Processed(items, text, maxPairs);
    var prefix := items[..p];
    RunProcessed(items, text, maxPairs, out0);
    RunUncappedContents(prefix, text, MatchState(0, [], out0), n);
    if n in PairedImages(prefix, text) {
      var i :| 0 <= i < |prefix| && HasText(prefix[i], text) && prefix[i].1 == n;
      assert prefix[i] == items[i];
      IndexItem(listing, i);
      var k :| 0 <= k < |listing| && IsImage(listing[k]) && items[i] == (Stem(listing[k].name), listing[k].name);
      assert listing[k].name == n && TextName(Stem(n)) in text;
      assert n !in PairedTexts(prefix, text) by {
        IndexIsIndexLike(listing);
        forall j | 0 <= j < |prefix| ensures TextName(prefix[j].0) != n {
          assert prefix[j] == items[j];
        }
      }
    } else if n in PairedTexts(prefix, text) {
      var i :| 0 <= i < |prefix| && HasText(prefix[i], text) && TextName(prefix[i].0) == n;
      assert prefix[i] == items[i];
      IndexItem(listing, i);
      var k :| 0 <= k < |listing| && IsImage(listing[k]) && items[i] == (Stem(listing[k].name), listing[k].name);
      assert n == TextName(Stem(listing[k].name));
    }
  }

  /** The file kept for a stem is the last listed image with that stem;
      `k` is its position in the listing. */
  lemma {:induction false} IndexLastListed(listing: seq<Entry>, s: string) returns (k: nat)
    requires s in ImageIndex(listing).files
    ensures k < |listing| && IsImage(listing[k]) && Stem(listing[k].name) == s
    ensures listing[k].name == ImageIndex(listing).files[s]
    ensures forall j :: k < j < |listing| && IsImage(listing[j]) ==> Stem(listing[j].name) != s
  {
    var n := |listing| - 1;
    var prefix := listing[..n];
    var e := listing[n];
    var x := (Stem(e.name), e.name);
    var files := ImageIndex(listing).files;
    if IsImage(e) && x.0 == s {
      assert Images(listing) == Images(prefix) + [x];
      IndexOfAppend(Images(prefix), x);
      k := n;
    } else {
      assert s in ImageIndex(prefix).files && files[s] == ImageIndex(prefix).files[s] by {
        if IsImage(e) {
          assert Images(listing) == Images(prefix) + [x];
          IndexOfAppend(Images(prefix), x);
        } else {
          assert Images(listing) == Images(prefix);
        }
      }
      k := IndexLastListed(prefix, s);
      assert prefix[k] == listing[k];
      forall j | k < j < |listing| && IsImage(listing[j]) ensures Stem(listing[j].name) != s {
        if j < n {
          assert prefix[j] == listing[j];
        }
      }
    }
  }

  /** Every listed image's stem is a key of the index. */
  lemma ListedStemIsKey(listing: seq<Entry>, j: int)
    requires 0 <= j < |listing| && IsImage(listing[j])
    ensures Stem(listing[j].name) in ImageIndex(listing).files
  {
    var x := (Stem(listing[j].name), listing[j].name);
    ImagesMembers(listing, x);
    var images := Images(listing);
    var i :| 0 <= i < |images| && images[i] == x;
    assert HasStem(images, i, x.0);
    IndexKeys(images, x.0);
  }

  /** Keys are walked in the order their stems first appear in the listing:
      an image with the earlier key's stem, at `ka`, is listed before the
      first image with the later key's stem, at `kb`. */
  lemma {:induction false} IndexOrderListed(listing: seq<Entry>, a: int, b: int) returns (ka: nat, kb: nat)
    requires 0 <= a < b < |ImageIndex(listing).order|
    ensures ka < kb < |listing|
    ensures IsImage(listing[ka]) && Stem(listing[ka].name) == ImageIndex(listing).order[a]
    ensures IsImage(listing[kb]) && Stem(listing[kb].name) == ImageIndex(listing).order[b]
    ensures forall j :: 0 <= j < kb && IsImage(listing[j]) ==> Stem(listing[j].name) != ImageIndex(listing).order[b]
  {
    var n := |listing| - 1;
    var prefix := listing[..n];
    var e := listing[n];
    var x := (Stem(e.name), e.name);
    var d0 := ImageIndex(prefix);
    var d := ImageIndex(listing);
    if IsImage(e) {
      assert Images(listing) == Images(prefix) + [x];
      IndexOfAppend(Images(prefix), x);
    } else {
      assert Images(listing) == Images(prefix);
    }
    assert d.order == if IsImage(e) && x.0 !in d0.files then d0.order + [x.0] else d0.order;
    if b < |d0.order| {
      assert d.order[a] == d0.order[a] && d.order[b] == d0.order[b];
      ka, kb := IndexOrderListed(prefix, a, b);
      assert prefix[ka] == listing[ka] && prefix[kb] == listing[kb];
      forall j | 0 <= j < kb && IsImage(listing[j]) ensures Stem(listing[j].name) != d.order[b] {
        assert prefix[j] == listing[j];
      }
    } else {
      assert d.order[b] == x.0 && x.0 !in d0.files && d.order[a] == d0.order[a];
      assert d0.Wf();
      ka := IndexLastListed(prefix, d0.order[a]);
      kb := n;
      assert prefix[ka] == listing[ka];
      forall j | 0 <= j < n && IsImage(listing[j]) ensures Stem(listing[j].name) != x.0 {
        assert prefix[j] == listing[j];
        ListedStemIsKey(prefix, j);
      }
    }
  }

  /** The names the output gains are exactly the image and caption names of
      the captioned stems among those the walk reaches. */
  lemma OutputNames(listing: seq<Entry>, text: set<string>, maxPairs: Option<int>, out0: map<string, Artifact>)
    ensures var items := ImageIndex(listing).Items();
            var reached := items[..Processed(items, text, maxPairs)];
            MatchOutcome(listing, text, maxPairs, out0).out.Keys
              == out0.Keys + PairedImages(reached, text) + PairedTexts(reached, text)
  {
    var items := ImageIndex(listing).Items();
    var p := Processed(items, text, maxPairs);
    RunProcessed(items, text, maxPairs, out0);
    RunUncappedNames(items[..p], text, MatchState(0, [], out0));
  }

  /** Neither an empty suffix nor `.txt` is an image suffix. */
  lemma CaptionSuffixNotAllowed()
    ensures "" !in ImageExtensions && ".txt" !in ImageExtensions
  {
    assert ".txt"[1] == 't';
  }

  /** The summary of one call: the total of distinct stems, the matched count
      and the unmatched image names. */
  datatype MatchReport = MatchReport(total: nat, matched: nat, unmatched: seq<string>)

  /** The first loop, building the stem index. */
  method ScanImageFolder(listing: seq<Entry>) returns (index: StemIndex)
    ensures index == ImageIndex(listing)
  {
    var order: seq<string> := [];
    var files: map<string, string> := map[];
    for i := 0 to |listing|
      invariant StemIndex(order, files) == IndexOf(Images(listing[..i]))
    {
      var entry := listing[i];
      assert listing[..i + 1][..i] == listing[..i];
      ghost var before := Images(listing[..i]);
      if entry.isFile && Lower(Suffix(entry.name)) in ImageExtensions {
        var stem := Stem(entry.name);
        IndexOfAppend(before, (stem, entry.name));
        if stem !in files {
          order := order + [stem];
        }
        files := files[stem := entry.name];
      }
      assert Images(listing[..i + 1]) == before + (if IsImage(entry) then [(Stem(entry.name), entry.name)] else []);
      assert IsImage(entry) ==> Images(listing[..i + 1]) == before + [(Stem(entry.name), entry.name)];
      assert !IsImage(entry) ==> Images(listing[..i + 1]) == before;
    }
    assert listing[..|listing|] == listing;
    index := StemIndex(order, files);
  }

  /** `match_and_save_pairs` on an image listing, the names present in the text
      directory and the cap; the output directory is created and filled. */
  method MatchAndSavePairs(listing: seq<Entry>, text: set<string>, maxPairs: Option<int>, output: OutputDir)
    returns (report: MatchReport)
    modifies output
    ensures output.present
    ensures var index := ImageIndex(listing);
            var final := RunMatch(index.Items(), text, maxPairs, MatchState(0, [], old(output.entries)));
            && report == MatchReport(|index.order|, final.matched, final.unmatched)
            && output.entries == final.out
  {
    output.MakeDirs();
    var index := ScanImageFolder(listing);
    var items := index.Items();
    ghost var final := RunMatch(items, text, maxPairs, MatchState(0, [], output.entries));
    var matched: nat := 0;
    var unmatched: seq<string> := [];
    var k := 0;
    while k < |items|
      invariant 0 <= k <= |items|
      invariant output.present
      invariant RunMatch(items[k..], text, maxPairs, MatchState(matched, unmatched, output.entries)) == final
    {
      if maxPairs.Some? && matched >= maxPairs.value {
        break;
      }
      var (stem, image) := items[k];
      var caption := TextName(stem);
      ghost var st := MatchState(matched, unmatched, output.entries);
      if caption in text {
        output.Copy2(ImageDir, image);
        output.Copy2(TextDir, caption);
        matched := matched + 1;
      } else {
        unmatched := unmatched + [image];
      }
      assert MatchState(matched, unmatched, output.entries) == Step(st, items[k], text);
      assert items[k..][1..] == items[k + 1..];
      k := k + 1;
    }
    report := MatchReport(|index.order|, matched, unmatched);
  }

  /** The names printed under "Unmatched image files": the first ten, in order. */
  function UnmatchedSample(unmatched: seq<string>): (r: seq<string>)
    ensures |r| == Min(10, |unmatched|)
    ensures r == unmatched[..|r|]
  {
    if |unmatched| <= 10 then unmatched else unmatched[..10]
  }

  /** The count in the closing "... and N more" line, present only when more
      than ten images are unmatched; it is what the sample leaves out. */
  function OmittedCount(unmatched: seq<string>): (r: Option<nat>)
    ensures r.Some? <==> |unmatched| > 10
    ensures r.Some? ==> |UnmatchedSample(unmatched)| + r.value == |unmatched|
  {
    if |unmatched| > 10 then Some(|unmatched| - 10) else None
  }

}
