/**
 * The loop of `main` in prepare_dataset.py: the extension list is parsed
 * from one comma-separated argument; every listed image with an allowed
 * suffix either counts as missing its caption or has itself and its caption
 * put into the output (copied or symlinked), unless the run is a dry run,
 * which changes nothing but counts the same.
 */
module PrepareDataset {
  import opened Options
  import opened Strings
  import opened Paths
  import opened OutputFolder
  import opened MatchPairs

  /** The default of `--extensions`. */
  const DefaultExtensionsArg: string := "jpg,jpeg,png,webp,bmp,tiff"

  /** One item of the argument as a suffix: `'.' + item.strip().lower()`. */
  function Dotted(item: string): string
  {
    "." + Lower(Strip(item))
  }

  /** The extension list built from `--extensions`, one suffix per
      comma-separated item, in order. */
  function ParseExtensions(arg: string): (exts: seq<string>)
    ensures |exts| == |Split(arg, ',')|
  {
    var items := Split(arg, ',');
    seq(|items|, i requires 0 <= i < |items| => Dotted(items[i]))
  }

  /** An item without commas gives a dot followed by a trimmed, comma-free,
      lower-case word (possibly empty). */
  lemma DottedShape(item: string)
    requires ',' !in item
    ensures var e := Dotted(item);
            && |e| >= 1 && e[0] == '.'
            && NoUpper(e) && ',' !in e && Trimmed(e[1..])
  {
    var t := Strip(item);
    StripKeepsOut(item, ',');
    var w := Lower(t);
    LowerChars(t);
    LowerKeeps(t, ',');
    var e := "." + w;
    assert e[1..] == w;
    assert NoUpper(e) by {
      forall k | 0 <= k < |e| ensures !IsUpper(e[k]) {
        if k > 0 {
          assert e[k] == w[k - 1];
        }
      }
    }
  }

  /** Each parsed suffix is the suffix of its own comma-separated item, and
      has the shape `DottedShape` gives. */
  lemma ParsedShape(arg: string, i: int)
    requires 0 <= i < |ParseExtensions(arg)|
    ensures var e := ParseExtensions(arg)[i];
            && e == "." + Lower(Strip(Split(arg, ',')[i]))
            && |e| >= 1 && e[0] == '.'
            && NoUpper(e) && ',' !in e && Trimmed(e[1..])
  {
    DottedShape(Split(arg, ',')[i]);
  }

  /** Parsing undoes joining: clean words joined with commas come back as the
      same words, each behind a dot. */
  lemma ParseJoin(words: seq<string>)
    requires |words| >= 1
    requires forall i :: 0 <= i < |words| ==> ',' !in words[i] && NoUpper(words[i]) && Trimmed(words[i])
    ensures |ParseExtensions(Join(words, ','))| == |words|
    ensures forall i :: 0 <= i < |words| ==> ParseExtensions(Join(words, ','))[i] == "." + words[i]
  {
    SplitJoin(words, ',');
    forall i | 0 <= i < |words|
      ensures Dotted(words[i]) == "." + words[i]
    {
      StripOfTrimmed(words[i]);
      LowerOfLowercase(words[i]);
    }
  }

  /** The words of the default argument. */
  const DefaultWords: seq<string> := ["jpg", "jpeg", "png", "webp", "bmp", "tiff"]

  lemma DefaultIsJoin()
    ensures Join(DefaultWords, ',') == DefaultExtensionsArg
  {
    var s1 := Join(["tiff"], ',');
    assert s1 == "tiff";
    var s2 := Join(["bmp", "tiff"], ',');
    JoinCons("bmp", ["tiff"], ',');
    assert s2 == "bmp" + [','] + s1;
    var s3 := Join(["webp", "bmp", "tiff"], ',');
    JoinCons("webp", ["bmp", "tiff"], ',');
    assert s3 == "webp" + [','] + s2;
    var s4 := Join(["png", "webp", "bmp", "tiff"], ',');
    JoinCons("png", ["webp", "bmp", "tiff"], ',');
    assert s4 == "png" + [','] + s3;
    var s5 := Join(["jpeg", "png", "webp", "bmp", "tiff"], ',');
    JoinCons("jpeg", ["png", "webp", "bmp", "tiff"], ',');
    assert s5 == "jpeg" + [','] + s4;
    var s6 := Join(["jpg", "jpeg", "png", "webp", "bmp", "tiff"], ',');
    JoinCons("jpg", ["jpeg", "png", "webp", "bmp", "tiff"], ',');
    assert s6 == "jpg" + [','] + s5;
    assert s6 == "jpg" + [','] + "jpeg" + [','] + "png" + [','] + "webp" + [','] + "bmp" + [','] + "tiff";
  }

  lemma DottedDefaultWords(r: seq<string>)
    requires |r| == |DefaultWords|
    requires forall i :: 0 <= i < |r| ==> r[i] == "." + DefaultWords[i]
    ensures r == [".jpg", ".jpeg", ".png", ".webp", ".bmp", ".tiff"]
  {
    assert r[0] == ".jpg";
    assert r[1] == ".jpeg";
    assert r[2] == ".png";
    assert r[3] == ".webp";
    assert r[4] == ".bmp";
    assert r[5] == ".tiff";
  }

  /** The default argument gives six suffixes; `.gif` is not among them. */
  lemma ParseDefault()
    ensures ParseExtensions(DefaultExtensionsArg) == [".jpg", ".jpeg", ".png", ".webp", ".bmp", ".tiff"]
  {
    DefaultIsJoin();
    assert forall i :: 0 <= i < |DefaultWords| ==> ',' !in DefaultWords[i] && NoUpper(DefaultWords[i]) && Trimmed(DefaultWords[i]);
    ParseJoin(DefaultWords);
    DottedDefaultWords(ParseExtensions(DefaultExtensionsArg));
  }


  /** The test that keeps an entry: a regular file whose lower-cased suffix
      is in the parsed list. */
  predicate Selected(e: Entry, exts: seq<string>)
  {
    e.isFile && Lower(Suffix(e.name)) in exts
  }

  /** A kept entry whose caption `<stem>.txt` is in the text directory. */
  predicate Captioned(e: Entry, text: set<string>, exts: seq<string>)
  {
    Selected(e, exts) && TextName(Stem(e.name)) in text
  }

  /** The loop's variables: `copied_count`, `missing_text_count`, and the
      output's entries. */
  datatype PrepState = PrepState(copied: nat, missing: nat, out: map<string, Artifact>)

  /** How the loop ends: after the last entry, or at a `symlink_to` whose
      name is taken (the `FileExistsError` ends `main`); the state then holds
      what was written before. */
  datatype PrepOutcome = Completed(st: PrepState) | LinkExists(name: string, st: PrepState)

  /** What a real run puts under a name: a link to the source or a copy of it. */
  function Made(origin: Origin, name: string, symlink: bool): Artifact
  {
    if symlink then LinkTo(origin, name) else CopyOf(origin, name)
  }

  /** One iteration of the loop over `e`. */
  function PrepStep(e: Entry, text: set<string>, exts: seq<string>, symlink: bool, dryRun: bool, st: PrepState): PrepOutcome
  {
    if !Selected(e, exts) then Completed(st)
    else
      var caption := TextName(Stem(e.name));
      if caption !in text then Completed(st.(missing := st.missing + 1))
      else if dryRun then Completed(st.(copied := st.copied + 1))
      else if symlink then
        if e.name in st.out then LinkExists(e.name, st)
        else
          var out1 := st.out[e.name := LinkTo(ImageDir, e.name)];
          if caption in out1 then LinkExists(caption, st.(out := out1))
          else Completed(PrepState(st.copied + 1, st.missing, out1[caption := LinkTo(TextDir, caption)]))
      else
        Completed(PrepState(st.copied + 1, st.missing,
                            st.out[e.name := CopyOf(ImageDir, e.name)][caption := CopyOf(TextDir, caption)]))
  }

  /** The loop from state `st` over the listing. */
  function PrepareRun(listing: seq<Entry>, text: set<string>, exts: seq<string>, symlink: bool, dryRun: bool, st: PrepState): PrepOutcome
  {
    if listing == [] then Completed(st)
    else
      match PrepStep(listing[0], text, exts, symlink, dryRun, st)
      case LinkExists(n, s) => LinkExists(n, s)
      case Completed(s) => PrepareRun(listing[1..], text, exts, symlink, dryRun, s)
  }

  // Reference definitions of what a pass over the listing does, without the loop.

  /** How many entries the filter keeps. */
  function KeptCount(listing: seq<Entry>, exts: seq<string>): nat
  {
    if listing == [] then 0 else (if Selected(listing[0], exts) then 1 else 0) + KeptCount(listing[1..], exts)
  }

  /** How many kept entries have their caption. */
  function CaptionedCount(listing: seq<Entry>, text: set<string>, exts: seq<string>): nat
  {
    if listing == [] then 0 else (if Captioned(listing[0], text, exts) then 1 else 0) + CaptionedCount(listing[1..], text, exts)
  }

  /** How many kept entries lack their caption. */
  function UncaptionedCount(listing: seq<Entry>, text: set<string>, exts: seq<string>): nat
  {
    if listing == [] then 0
    else (if Selected(listing[0], exts) && !Captioned(listing[0], text, exts) then 1 else 0) + UncaptionedCount(listing[1..], text, exts)
  }

  /** The names of the kept entries that have their caption. */
  function PairImages(listing: seq<Entry>, text: set<string>, exts: seq<string>): set<string>
  {
    set i | 0 <= i < |listing| && Captioned(listing[i], text, exts) :: listing[i].name
  }

  /** The caption names of those entries. */
  function PairTexts(listing: seq<Entry>, text: set<string>, exts: seq<string>): set<string>
  {
    set i | 0 <= i < |listing| && Captioned(listing[i], text, exts) :: TextName(Stem(listing[i].name))
  }

  lemma PairSetsCons(listing: seq<Entry>, text: set<string>, exts: seq<string>)
    requires listing != []
    ensures PairImages(listing, text, exts)
            == (if Captioned(listing[0], text, exts) then {listing[0].name} else {}) + PairImages(listing[1..], text, exts)
    ensures PairTexts(listing, text, exts)
            == (if Captioned(listing[0], text, exts) then {TextName(Stem(listing[0].name))} else {}) + PairTexts(listing[1..], text, exts)
  {
    var rest := listing[1..];
    assert forall i :: 1 <= i < |listing| ==> listing[i] == rest[i - 1];
    assert forall i :: 0 <= i < |rest| ==> rest[i] == listing[i + 1];
  }

  /** Every kept entry has its caption or lacks it; entries sharing a stem
      are counted one by one. */
  lemma {:induction false} CountsSplit(listing: seq<Entry>, text: set<string>, exts: seq<string>)
    ensures CaptionedCount(listing, text, exts) + UncaptionedCount(listing, text, exts) == KeptCount(listing, exts)
  {
    if listing != [] {
      CountsSplit(listing[1..], text, exts);
    }
  }

  /** Only a symlink run can stop early, and only at a name already present. */
  lemma {:induction false} OnlyLinksFail(listing: seq<Entry>, text: set<string>, exts: seq<string>, symlink: bool, dryRun: bool, st: PrepState)
    ensures var r := PrepareRun(listing, text, exts, symlink, dryRun, st);
            r.LinkExists? ==> symlink && !dryRun && r.name in r.st.out
  {
    if listing != [] {
      var step := PrepStep(listing[0], text, exts, symlink, dryRun, st);
      if step.Completed? {
        OnlyLinksFail(listing[1..], text, exts, symlink, dryRun, step.st);
      }
    }
  }

  /** A run that finishes has counted every captioned entry as processed and
      every other kept entry as missing its caption. */
  lemma {:induction false} CompletedCounts(listing: seq<Entry>, text: set<string>, exts: seq<string>, symlink: bool, dryRun: bool, st: PrepState)
    ensures var r := PrepareRun(listing, text, exts, symlink, dryRun, st);
            r.Completed? ==>
              && r.st.copied == st.copied + CaptionedCount(listing, text, exts)
              && r.st.missing == st.missing + UncaptionedCount(listing, text, exts)
  {
    if listing != [] {
      var step := PrepStep(listing[0], text, exts, symlink, dryRun, st);
      if step.Completed? {
        CompletedCounts(listing[1..], text, exts, symlink, dryRun, step.st);
      }
    }
  }

  /** A dry run always finishes, leaves the output as it was, and counts as a
      real run would. */
  lemma {:induction false} DryRunChangesNothing(listing: seq<Entry>, text: set<string>, exts: seq<string>, symlink: bool, st: PrepState)
    ensures PrepareRun(listing, text, exts, symlink, true, st)
            == Completed(PrepState(st.copied + CaptionedCount(listing, text, exts),
                                   st.missing + UncaptionedCount(listing, text, exts), st.out))
  {
    if listing != [] {
      DryRunChangesNothing(listing[1..], text, exts, symlink, PrepStep(listing[0], text, exts, symlink, true, st).st);
    }
  }

  /** A dry run reports the counts of any real run that finishes, and a
      copying run always finishes. */
  lemma DryRunCountsAsRealRun(listing: seq<Entry>, text: set<string>, exts: seq<string>, symlink: bool, st: PrepState)
    ensures var dry := PrepareRun(listing, text, exts, symlink, true, st);
            var live := PrepareRun(listing, text, exts, symlink, false, st);
            && dry.Completed?
            && (!symlink ==> live.Completed?)
            && (live.Completed? ==> live.st.copied == dry.st.copied && live.st.missing == dry.st.missing)
  {
    DryRunChangesNothing(listing, text, exts, symlink, st);
    OnlyLinksFail(listing, text, exts, symlink, false, st);
    CompletedCounts(listing, text, exts, symlink, false, st);
  }

  /** A real run that finishes has added exactly the names of the captioned
      entries and of their captions. */
  lemma {:induction false} WrittenNames(listing: seq<Entry>, text: set<string>, exts: seq<string>, symlink: bool, st: PrepState)
    ensures var r := PrepareRun(listing, text, exts, symlink, false, st);
            r.Completed? ==>
              r.st.out.Keys == st.out.Keys + PairImages(listing, text, exts) + PairTexts(listing, text, exts)
  {
    if listing != [] {
      var step := PrepStep(listing[0], text, exts, symlink, false, st);
      PairSetsCons(listing, text, exts);
      if step.Completed? {
        WrittenNames(listing[1..], text, exts, symlink, step.st);
      }
    }
  }

  /** After a real run that finishes, every entry of the output is as it was
      before, or a copy of (a link to) the same-named file of the image or
      the text directory, written for a captioned entry. */
  lemma {:induction false} WrittenContents(listing: seq<Entry>, text: set<string>, exts: seq<string>, symlink: bool, st: PrepState, n: string)
    requires PrepareRun(listing, text, exts, symlink, false, st).Completed?
    requires n in PrepareRun(listing, text, exts, symlink, false, st).st.out
    ensures var out := PrepareRun(listing, text, exts, symlink, false, st).st.out;
            || (n !in PairImages(listing, text, exts) && n !in PairTexts(listing, text, exts) && n in st.out && out[n] == st.out[n])
            || (n in PairImages(listing, text, exts) && out[n] == Made(ImageDir, n, symlink))
            || (n in PairTexts(listing, text, exts) && out[n] == Made(TextDir, n, symlink))
  {
    if listing != [] {
      var step := PrepStep(listing[0], text, exts, symlink, false, st);
      PairSetsCons(listing, text, exts);
      WrittenContents(listing[1..], text, exts, symlink, step.st, n);
    }
  }

  /** A symlink run that finishes found every name it links free: no
      captioned entry's name or caption name was in the output before, and
      no two captioned entries share a stem. */
  lemma {:induction false} SymlinkRunFresh(listing: seq<Entry>, text: set<string>, exts: seq<string>, st: PrepState)
    requires PrepareRun(listing, text, exts, true, false, st).Completed?
    ensures forall i :: 0 <= i < |listing| && Captioned(listing[i], text, exts) ==>
              listing[i].name !in st.out && TextName(Stem(listing[i].name)) !in st.out
    ensures forall i, j :: 0 <= i < j < |listing| && Captioned(listing[i], text, exts) && Captioned(listing[j], text, exts) ==>
              Stem(listing[i].name) != Stem(listing[j].name)
  {
    if listing != [] {
      var step := PrepStep(listing[0], text, exts, true, false, st);
      var rest := listing[1..];
      SymlinkRunFresh(rest, text, exts, step.st);
      assert forall i :: 1 <= i < |listing| ==> listing[i] == rest[i - 1];
      forall i, j | 0 <= i < j < |listing| && Captioned(listing[i], text, exts) && Captioned(listing[j], text, exts)
        ensures Stem(listing[i].name) != Stem(listing[j].name)
      {
        if i == 0 {
          assert TextName(Stem(listing[j].name)) !in step.st.out;
        }
      }
    }
  }


  /** Some kept entry has its caption exactly when the captioned count is positive. */
  lemma {:induction false} CaptionedCountPositive(listing: seq<Entry>, text: set<string>, exts: seq<string>)
    ensures CaptionedCount(listing, text, exts) > 0 <==> exists i :: 0 <= i < |listing| && Captioned(listing[i], text, exts)
  {
    if listing != [] {
      var rest := listing[1..];
      CaptionedCountPositive(rest, text, exts);
      if exists i :: 0 <= i < |listing| && Captioned(listing[i], text, exts) {
        var i :| 0 <= i < |listing| && Captioned(listing[i], text, exts);
        if i > 0 {
          assert rest[i - 1] == listing[i];
        }
      }
      if exists i :: 0 <= i < |rest| && Captioned(rest[i], text, exts) {
        var i :| 0 <= i < |rest| && Captioned(rest[i], text, exts);
        assert listing[i + 1] == rest[i];
      }
    }
  }

  /** The summary's closing block: shown when the run was real and counted a
      pair, which happens exactly when some kept entry has its caption, and
      then that entry's image and caption names are in the output. */
  lemma ReadyMeansPairWritten(listing: seq<Entry>, text: set<string>, exts: seq<string>, symlink: bool, out0: map<string, Artifact>)
    requires PrepareRun(listing, text, exts, symlink, false, PrepState(0, 0, out0)).Completed?
    ensures var r := PrepareRun(listing, text, exts, symlink, false, PrepState(0, 0, out0));
            r.st.copied > 0 <==> exists i :: 0 <= i < |listing| && Captioned(listing[i], text, exts)
    ensures var r := PrepareRun(listing, text, exts, symlink, false, PrepState(0, 0, out0));
            r.st.copied > 0 ==>
              exists i :: && 0 <= i < |listing| && Captioned(listing[i], text, exts)
                          && listing[i].name in r.st.out && TextName(Stem(listing[i].name)) in r.st.out
  {
    var r := PrepareRun(listing, text, exts, symlink, false, PrepState(0, 0, out0));
    CompletedCounts(listing, text, exts, symlink, false, PrepState(0, 0, out0));
    CaptionedCountPositive(listing, text, exts);
    WrittenNames(listing, text, exts, symlink, PrepState(0, 0, out0));
    if r.st.copied > 0 {
      var i :| 0 <= i < |listing| && Captioned(listing[i], text, exts);
      assert listing[i].name in PairImages(listing, text, exts);
      assert TextName(Stem(listing[i].name)) in PairTexts(listing, text, exts);
    }
  }

  lemma DefaultSuffixes(x: string)
    ensures x in [".jpg", ".jpeg", ".png", ".webp", ".bmp", ".tiff"] <==> x in ImageExtensions && x != ".gif"
  {
  }

  /** With the default argument this filter keeps what the allow-set of the
      other script keeps, except `.gif` files. */
  lemma DefaultFilterIsImagesButGif(e: Entry)
    ensures Selected(e, ParseExtensions(DefaultExtensionsArg)) <==> IsImage(e) && Lower(Suffix(e.name)) != ".gif"
  {
    ParseDefault();
    DefaultSuffixes(Lower(Suffix(e.name)));
  }

  /** The printed summary: the two counts and whether the closing block is
      shown; or the name whose `symlink_to` raised. */
  datatype PrepReport = Finished(copied: nat, missing: nat, ready: bool) | LinkFailed(name: string)

  /** The pass over the listing (the `for` loop of `main`), with the
      extension list already parsed; the output must exist unless the run is
      dry. */
  method ProcessListing(listing: seq<Entry>, text: set<string>, exts: seq<string>, symlink: bool, dryRun: bool, output: OutputDir)
    returns (report: PrepReport)
    requires output.present || dryRun
    modifies output
    ensures output.present == old(output.present)
    ensures var r := PrepareRun(listing, text, exts, symlink, dryRun, PrepState(0, 0, old(output.entries)));
            && output.entries == r.st.out
            && report == (if r.Completed? then Finished(r.st.copied, r.st.missing, !dryRun && r.st.copied > 0) else LinkFailed(r.name))
  {
    ghost var final := PrepareRun(listing, text, exts, symlink, dryRun, PrepState(0, 0, output.entries));
    var copied: nat := 0;
    var missing: nat := 0;
    for i := 0 to |listing|
      invariant output.present == old(output.present)
      invariant PrepareRun(listing[i..], text, exts, symlink, dryRun, PrepState(copied, missing, output.entries)) == final
    {
      var entry := listing[i];
      ghost var st := PrepState(copied, missing, output.entries);
      assert PrepareRun(listing[i..], text, exts, symlink, dryRun, st)
             == match PrepStep(entry, text, exts, symlink, dryRun, st)
                case LinkExists(n, s) => LinkExists(n, s)
                case Completed(s) => PrepareRun(listing[i + 1..], text, exts, symlink, dryRun, s)
      by {
        assert listing[i..][0] == entry && listing[i..][1..] == listing[i + 1..];
      }
      if !entry.isFile || Lower(Suffix(entry.name)) !in exts {
        assert PrepStep(entry, text, exts, symlink, dryRun, st) == Completed(st);
        continue;
      }
      var caption := TextName(Stem(entry.name));
      if caption !in text {
        missing := missing + 1;
        assert PrepStep(entry, text, exts, symlink, dryRun, st) == Completed(PrepState(copied, missing, output.entries));
        continue;
      }
      if !dryRun {
        if symlink {
          var ok := output.SymlinkTo(ImageDir, entry.name);
          if !ok {
            assert PrepStep(entry, text, exts, symlink, dryRun, st) == LinkExists(entry.name, st);
            return LinkFailed(entry.name);
          }
          ghost var linked := output.entries;
          ok := output.SymlinkTo(TextDir, caption);
          if !ok {
            assert PrepStep(entry, text, exts, symlink, dryRun, st) == LinkExists(caption, st.(out := linked));
            return LinkFailed(caption);
          }
        } else {
          output.Copy2(ImageDir, entry.name);
          output.Copy2(TextDir, caption);
        }
      }
      copied := copied + 1;
      assert PrepStep(entry, text, exts, symlink, dryRun, st) == Completed(PrepState(copied, missing, output.entries));
    }
    report := Finished(copied, missing, !dryRun && copied > 0);
  }


  /** `main` from the extension parsing on: parse the list, create the
      output unless dry, then one pass over the listing. */
  method PrepareDatasetMain(listing: seq<Entry>, text: set<string>, extArg: string, symlink: bool, dryRun: bool, output: OutputDir)
    returns (report: PrepReport)
    modifies output
    ensures output.present == (old(output.present) || !dryRun)
    ensures var r := PrepareRun(listing, text, ParseExtensions(extArg), symlink, dryRun, PrepState(0, 0, old(output.entries)));
            && output.entries == r.st.out
            && report == (if r.Completed? then Finished(r.st.copied, r.st.missing, !dryRun && r.st.copied > 0) else LinkFailed(r.name))
  {
    var exts := ParseExtensions(extArg);
    if !dryRun {
      output.MakeDirs();
    }
    report := ProcessListing(listing, text, exts, symlink, dryRun, output);
  }

}
