# Image/caption pairing, modelled in Dafny

The repository prepares training data for diffusion models. Two of its
scripts do the same job in two different ways. Each walks an image
directory, keeps the files whose extension is allowed, and looks for a
caption `<stem>.txt` in a text directory. Matched pairs are placed into an
output directory under their own base names. Images without a caption are
counted.

- `match_and_save_pairs` (match_image_text_pairs.py) first builds a dictionary
  from stem to image file. A later file with the same stem replaces the
  earlier one, but the stem keeps its first position. It then walks that
  dictionary, copying matched pairs, and can stop after `max_pairs` pairs. It
  reports the number of stems, the number of pairs, the unmatched image
  names, and a sample of at most ten of them.
- The loop of `main` (prepare_dataset.py) parses a comma-separated extension
  list. It then walks the listing itself, with no deduplication and no cap.
  Each matched pair is copied or symlinked, or only counted in a dry run. It
  reports both counts and whether the "Dataset ready" block is shown.

The model takes these inputs:

- the directory listing, as a sequence of entries (base name and `is_file`), in
  enumeration order;
- the text directory, as the set of names in it;
- the output directory, as an object. It records whether the directory exists
  and what each name holds: a copy of, or a link to, the same-named file of the
  image or the text directory.

Modules:

- `Strings`: `str.lower`, `str.strip`, `str.split` and `str.join`, on ASCII.
- `Paths`: directory entries, plus `Path.suffix` and `Path.stem`, which split a
  name at its last dot. A leading or a trailing dot starts no extension. This
  is the rule of `PurePath.suffix` through Python 3.13; a release that takes
  the trailing dot of `name.` as the suffix `.` differs on such names.
- `OutputFolder`: the output directory as a class, with `mkdir`,
  `shutil.copy2` and `symlink_to` as methods that update it in place.
- `MatchPairs`: match_image_text_pairs.py.
  - `ScanImageFolder` is the dictionary loop.
  - `MatchAndSavePairs` is the whole function.
  - Both are proved equal to the recursive specifications `ImageIndex` and
    `RunMatch`.
  - Lemmas relate those specifications to reference definitions without a
    loop: which files enter the index, which `<stem>.txt` exist, and where the
    cap stops the walk.
- `PrepareDataset`: prepare_dataset.py.
  - `ParseExtensions` models line 49.
  - `ProcessListing` is the loop.
  - `PrepareDatasetMain` parses the list, creates the output unless dry, and
    runs the loop.
  - The loop is proved equal to the specification `PrepareRun`. Lemmas relate
    that specification to counts and name sets defined without a loop.

Behaviour of the scripts worth knowing, as the code has it:

- The default `--extensions` of prepare_dataset.py, `jpg,jpeg,png,webp,bmp,tiff`
  (prepare_dataset.py:28), lacks the `.gif` of the allow-set at
  match_image_text_pairs.py:26 (see `ParseDefault` and
  `DefaultFilterIsImagesButGif`).
- The `--dry_run` help (prepare_dataset.py:30) says a dry run shows what would
  be copied without copying. Its counts are those of a real copy run. A real
  symlink run, though, stops at the first `symlink_to` whose name is taken,
  and then prints no summary. That happens, for example, when two kept images
  that have a caption share a stem, or when the output already holds a name
  (`DryRunCountsAsRealRun`, `SymlinkRunFresh`).
- The command line of match_image_text_pairs.py always passes the required
  `size` argument as `max_pairs` (match_image_text_pairs.py:73, 85), so the cap
  is always set there. The model also covers `max_pairs=None`, which the
  function accepts.

## Model

| member | source | states |
|---|---|---|
| `Strings.LowerChars` | match_image_text_pairs.py:31 | `lower` maps each capital A-Z to its small letter and keeps every other character, so no capital is left |
| `Strings.LowerOfLowercase` | prepare_dataset.py:49 | a string without capitals is its own lower-case form |
| `Strings.Strip` | prepare_dataset.py:49 | `strip` yields the infix left after dropping whitespace at both ends; the result has no whitespace at either end |
| `Strings.StripOfTrimmed` | prepare_dataset.py:49 | a string with no surrounding whitespace is its own strip |
| `Strings.Split` | prepare_dataset.py:49 | `split(',')` yields at least one field; no field holds the separator; joining the fields gives the input back |
| `Strings.SplitJoin` | prepare_dataset.py:49 | splitting undoes joining separator-free fields, so `Split` gives the only such fields that join to the input |
| `Paths.LastDotFound` | match_image_text_pairs.py:31-32 | `rfind('.')` gives the position of the last dot, or reports that there is none |
| `Paths.SuffixShape` | match_image_text_pairs.py:31-32 | the suffix is empty, or a dot plus at least one character and no further dot, taken from the end; it is present exactly when the last dot is neither first nor last; stem plus suffix is the name; a non-empty name has a non-empty stem |
| `Paths.TextNameSplits` | match_image_text_pairs.py:45 | the caption name of a non-empty stem has suffix `.txt` and gives that stem back |
| `Paths.TextNameSuffix` | match_image_text_pairs.py:45 | a lower-cased caption suffix is `.txt` or empty |
| `Paths.TextNameInjective` | match_image_text_pairs.py:45 | different stems have different caption names |
| `Strings.Lower` | match_image_text_pairs.py:31 | definition: `str.lower` on ASCII, character by character; keeps the length |
| `Paths.Suffix` | match_image_text_pairs.py:31 | definition: `Path.suffix`, the name from its last dot when that dot is neither first nor last, else empty |
| `Paths.Stem` | match_image_text_pairs.py:32 | definition: `Path.stem`, the name in front of the suffix |
| `Paths.TextName` | match_image_text_pairs.py:45 | definition: the caption name `f"{stem}.txt"` |
| `OutputFolder.OutputDir.MakeDirs` | match_image_text_pairs.py:23 | afterwards the output exists and keeps all its entries |
| `OutputFolder.OutputDir.Copy2` | match_image_text_pairs.py:49-50 | a copy of the source is stored under its base name, replacing any entry with that name; nothing else changes |
| `OutputFolder.OutputDir.SymlinkTo` | prepare_dataset.py:81-83 | the link succeeds exactly when the name is free; on failure the output is unchanged |
| `MatchPairs.IsImage` | match_image_text_pairs.py:31 | definition: a regular file whose lower-cased suffix is in the allow-set |
| `MatchPairs.Images` | match_image_text_pairs.py:29-31 | no more qualifying files than listed entries |
| `MatchPairs.ImagesMembers` | match_image_text_pairs.py:26-32 | an image is kept exactly when its entry is a regular file whose lower-cased suffix is one of the seven allowed; it is kept with its stem |
| `MatchPairs.IndexOf` | match_image_text_pairs.py:32-33 | the index is well formed and holds at most one file per stem, so no more stems than qualifying files |
| `MatchPairs.IndexExact` | match_image_text_pairs.py:29-33 | the dictionary's keys are exactly its iteration order, and no stem appears twice |
| `MatchPairs.IndexKeys` | match_image_text_pairs.py:29-33 | a stem is a key exactly when some qualifying file has it |
| `MatchPairs.IndexLastWins` | match_image_text_pairs.py:32-33 | the file kept for a stem is the last qualifying file with that stem |
| `MatchPairs.FirstWithStem` | match_image_text_pairs.py:29-39 | the position of the first qualifying file with a stem, when there is one |
| `MatchPairs.IndexOrder` | match_image_text_pairs.py:29-39 | stems are walked in the order of their first appearance; a later overwrite does not move a stem |
| `MatchPairs.IndexLastListed` | match_image_text_pairs.py:29-33 | the file kept for a stem is the last listed image with that stem |
| `MatchPairs.ListedStemIsKey` | match_image_text_pairs.py:29-33 | every listed image's stem is a key |
| `MatchPairs.IndexOrderListed` | match_image_text_pairs.py:29-39 | of two walked stems, the earlier one has an image listed before the first listed image of the later one |
| `MatchPairs.IndexItem` | match_image_text_pairs.py:29-39 | each walked pair (stem, file) comes from a listed image and carries that file's stem |
| `MatchPairs.IndexNamesNotCaptions` | match_image_text_pairs.py:26-45 | no walked image name equals a caption name, since `.txt` is not an allowed suffix |
| `MatchPairs.CaptionSuffixNotAllowed` | match_image_text_pairs.py:26 | neither the empty suffix nor `.txt` is in the allow-set |
| `MatchPairs.ScanImageFolder` | match_image_text_pairs.py:29-33 | the dictionary loop yields the stem index `ImageIndex` of the listing |
| `MatchPairs.Step` | match_image_text_pairs.py:44-54 | definition: one iteration past the cap test: copy image and caption and count the pair, or append the image name to the unmatched list |
| `MatchPairs.RunMatch` | match_image_text_pairs.py:39-54 | definition: the walk over the stems, stopping before a stem once a cap is set and reached |
| `MatchPairs.PairedPlusMissing` | match_image_text_pairs.py:39-54 | every walked stem has its caption or is missing it |
| `MatchPairs.RunUncappedCounts` | match_image_text_pairs.py:39-54 | without a cap, every stem with a caption is counted, and every other stem's image name is listed, in order |
| `MatchPairs.RunUncappedNames` | match_image_text_pairs.py:45-51 | without a cap, the output gains exactly the image names and caption names of the matched stems |
| `MatchPairs.RunUncappedContents` | match_image_text_pairs.py:45-51 | without a cap, each written name holds a copy of the same-named image or caption; every other entry is unchanged |
| `MatchPairs.CapStop` | match_image_text_pairs.py:41-42 | the prefix the capped walk covers before stopping: it holds `min(max(cap, 0), matches)` matches, every shorter prefix holds fewer than the cap, and it stops early only once the cap is reached |
| `MatchPairs.RunCapped` | match_image_text_pairs.py:39-42 | a capped walk is the uncapped walk over the prefix `CapStop` picks |
| `MatchPairs.CapCounts` | match_image_text_pairs.py:41-51 | with a cap, exactly `min(max(cap, 0), matches)` pairs are made; matched plus unmatched is at most the stem count; a cap of 0 or less changes nothing |
| `MatchPairs.UncappedItemOutcome` | match_image_text_pairs.py:45-54 | for one stem: with its caption, the output holds copies of image and caption under their own names; without it, the image name is listed and neither name is touched |
| `MatchPairs.RunProcessed` | match_image_text_pairs.py:39-42 | from a fresh start, the walk is the uncapped walk over the stems it reaches |
| `MatchPairs.ReportCounts` | match_image_text_pairs.py:36-59 | the printed counts: matched plus unmatched is at most the stem count, which is at most the image count; equality without a cap; with a cap, `min(max(cap, 0), matches)` pairs; with a cap of 0 or less, nothing happens |
| `MatchPairs.OutputNames` | match_image_text_pairs.py:39-54 | the output gains exactly the image and caption names of the captioned stems among those the walk reaches |
| `MatchPairs.ReachedStemOutcome` | match_image_text_pairs.py:39-54 | for each stem the walk reaches: with `<stem>.txt` present, the output holds copies of both files; without it, the image is reported unmatched and nothing is written for it |
| `MatchPairs.UnmatchedLackCaption` | match_image_text_pairs.py:53-54 | every unmatched name is a listed image whose caption is absent |
| `MatchPairs.OutputHoldsOnlyPairs` | match_image_text_pairs.py:39-54 | every output entry is either as it was before, or a copy of a listed image whose caption exists, or a copy of an existing caption of a listed image; text files without an image are never copied |
| `MatchPairs.MatchAndSavePairs` | match_image_text_pairs.py:23-59 | creates the output; the report (stem count, matched count, unmatched names) and the new output contents are those of `RunMatch` over the index |
| `MatchPairs.UnmatchedSample` | match_image_text_pairs.py:61-64 | the sample is the first `min(10, n)` unmatched names, in order |
| `MatchPairs.OmittedCount` | match_image_text_pairs.py:65-66 | the "more" count appears only when more than ten images are unmatched, and equals what the sample leaves out |
| `PrepareDataset.Dotted` | prepare_dataset.py:49 | definition: `'.' + item.strip().lower()` |
| `PrepareDataset.ParseExtensions` | prepare_dataset.py:49 | one suffix per comma-separated item of the argument |
| `PrepareDataset.DottedShape` | prepare_dataset.py:49 | an item gives a dot plus a trimmed, lower-case word without commas |
| `PrepareDataset.ParsedShape` | prepare_dataset.py:49 | the i-th suffix is `'.' + item.strip().lower()` for the i-th item, with the shape given by `DottedShape` |
| `PrepareDataset.ParseJoin` | prepare_dataset.py:49 | clean words joined with commas parse back to the same words, each after a dot |
| `PrepareDataset.ParseDefault` | prepare_dataset.py:28-49 | the default argument gives `.jpg .jpeg .png .webp .bmp .tiff`, in this order |
| `PrepareDataset.DefaultFilterIsImagesButGif` | prepare_dataset.py:28 | with the default argument, an entry is kept exactly when the other script would keep it and its suffix is not `.gif` |
| `PrepareDataset.Selected` | prepare_dataset.py:65-66 | definition: a regular file whose lower-cased suffix is in the parsed list |
| `PrepareDataset.PrepStep` | prepare_dataset.py:65-90 | definition: one iteration: skip, count a missing caption, count only (dry run), link both files (stopping at a taken name), or copy both files |
| `PrepareDataset.PrepareRun` | prepare_dataset.py:64-90 | definition: the loop over the listing, ending at the first failed link |
| `PrepareDataset.CountsSplit` | prepare_dataset.py:64-90 | every kept entry has its caption or lacks it; entries are counted one by one, with no stem deduplication |
| `PrepareDataset.OnlyLinksFail` | prepare_dataset.py:77-86 | only a real symlink run can stop early, and only at a name already present |
| `PrepareDataset.CompletedCounts` | prepare_dataset.py:61-90 | a run that finishes has `copied_count` = kept entries with a caption and `missing_text_count` = kept entries without one |
| `PrepareDataset.DryRunChangesNothing` | prepare_dataset.py:77-90 | a dry run always finishes, leaves the output as it was, and counts every pair and every missing caption |
| `PrepareDataset.DryRunCountsAsRealRun` | prepare_dataset.py:77-90 | a dry run reports the counts of every real run that finishes; a copying run always finishes |
| `PrepareDataset.WrittenNames` | prepare_dataset.py:81-86 | a real run that finishes adds exactly the names of the captioned images and of their captions |
| `PrepareDataset.WrittenContents` | prepare_dataset.py:81-86 | each added name holds a link to (symlink mode) or a copy of (otherwise) the same-named image or caption; every other entry is unchanged |
| `PrepareDataset.SymlinkRunFresh` | prepare_dataset.py:81-83 | a symlink run that finishes found every name it linked free, and no two of its captioned images share a stem |
| `PrepareDataset.ReadyMeansPairWritten` | prepare_dataset.py:90-101 | in a real run that finishes, a pair is counted exactly when some kept image has its caption, and then that image and caption are in the output |
| `PrepareDataset.ProcessListing` | prepare_dataset.py:61-101 | the loop's counts, its early stop at a taken link name, the ready flag `not dry_run and copied_count > 0`, and the new output contents are those of `PrepareRun` |
| `PrepareDataset.PrepareDatasetMain` | prepare_dataset.py:49-101 | afterwards the output exists if it did before or the run is real, so a dry run creates nothing; report and contents are those of `PrepareRun` over the parsed list |

## Left out

- save_to_s3.py is not part of this model. It is client construction,
  credentials and network uploads through a foreign library.
- Argument parsing and all printing beyond the counts, the sample, the "more"
  count and the ready condition: these are I/O.
- The existence checks on the input directories and their exit codes
  (match_image_text_pairs.py:77-83, prepare_dataset.py:40-46): these are
  process control. The model starts after them.
- `Path.resolve`, absolute paths and `mkdir(parents=True)`: the output is one
  directory of base names, and creating it is a flag.
- Directory enumeration order: the listing is an input sequence, in any order.
- File contents, metadata kept by `copy2`, and link targets: an entry records
  only which directory its same-named source comes from.
- Filesystem cases not modelled:
  - `exists()` being false for a dangling symlink in the text directory;
  - a case-insensitive filesystem, where the `<stem>.txt` lookup ignores case;
  - an output entry that is a directory, which `copy2` copies into;
  - `copy2` writing through an existing symlink;
  - `SameFileError` when the output is an input directory;
  - a caption name that is a directory;
  - permission and disk errors.
- Any exception other than the `FileExistsError` of `symlink_to` is not
  modelled. That error ends the run like an uncaught exception: what was
  written stays, and no summary follows.
- `str.lower` and `str.strip` beyond ASCII: the model has no Unicode case
  mapping and no Unicode whitespace.
- Counts are unbounded integers, as Python's are.
