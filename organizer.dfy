/**
 * Placing captures (nxshot.py `checkFolders`, lines 131-177): each file
 * whose stem classifies is copied into `<root>/<folder name>`, where the
 * root is `FILEPATH/Organized` or the `--output` folder; a file whose stem
 * does not classify is reported and skipped. The file system is not
 * modelled: the loop returns the copies it would make, in order, and the
 * progress lines it would print.
 */
module Organizer {
  import opened Optional
  import opened Capture
  import opened Lookup
  import Registry

  /** A POSIX path: whether it starts at `/`, and its components. */
  datatype Path = Path(absolute: bool, parts: seq<string>)

  /** A component `pathlib` keeps: not empty, not `.`, no `/`. */
  predicate IsPart(p: string) {
    p != "" && p != "." && '/' !in p
  }

  /** The position of the first `/`, or the length when there is none. */
  function SlashIndex(s: string): (k: nat)
    ensures k <= |s| && '/' !in s[..k] && (k < |s| ==> s[k] == '/')
  {
    if s == [] || s[0] == '/' then 0
    else
      var k := 1 + SlashIndex(s[1..]);
      assert s[..k] == [s[0]] + s[1..][..k - 1];
      k
  }

  /** How `pathlib` splits a string into components: at each `/`, dropping empty and `.` pieces. */
  function Parts(s: string): (r: seq<string>)
    ensures forall i :: 0 <= i < |r| ==> IsPart(r[i])
    decreases |s|
  {
    if s == [] then []
    else
      var k := SlashIndex(s);
      var head := s[..k];
      (if head == "" || head == "." then [] else [head])
        + (if k < |s| then Parts(s[k + 1..]) else [])
  }

  /** The components written out with `/` between them, as `str(path)` does for a relative path. */
  function JoinParts(ps: seq<string>): string {
    if ps == [] then "" else if |ps| == 1 then ps[0] else ps[0] + "/" + JoinParts(ps[1..])
  }

  /** A component, a `/` and the rest split into that component and the rest's components. */
  lemma PartsCons(p: string, rest: string)
    requires IsPart(p)
    ensures Parts(p + "/" + rest) == [p] + Parts(rest)
  {
    var s := p + "/" + rest;
    assert SlashIndex(s) == |p| by {
      assert s == p + ("/" + rest);
      SlashIndexAfter(p, "/" + rest);
    }
    assert s[..|p|] == p;
    assert s[|p| + 1..] == rest;
  }

  /** Splitting undoes joining: a component list survives the trip through text. */
  lemma {:induction false} PartsJoinParts(ps: seq<string>)
    requires forall i :: 0 <= i < |ps| ==> IsPart(ps[i])
    ensures Parts(JoinParts(ps)) == ps
  {
    if |ps| == 1 {
      PlainNameParts(ps[0]);
    } else if |ps| > 1 {
      PartsCons(ps[0], JoinParts(ps[1..]));
      PartsJoinParts(ps[1..]);
      assert ps == [ps[0]] + ps[1..];
    }
  }

  lemma {:induction false} SlashIndexAfter(p: string, rest: string)
    requires '/' !in p && |rest| > 0 && rest[0] == '/'
    ensures SlashIndex(p + rest) == |p|
    decreases |p|
  {
    if p != [] {
      assert (p + rest)[1..] == p[1..] + rest;
      SlashIndexAfter(p[1..], rest);
    } else {
      assert p + rest == rest;
    }
  }

  /** A plain name is one component. */
  lemma PlainNameParts(name: string)
    requires IsPart(name)
    ensures Parts(name) == [name]
  {
    assert SlashIndex(name) == |name|;
    assert name[..|name|] == name;
  }

  /** `base.joinpath(name)`: a name starting with `/` replaces the base. */
  function Join(base: Path, name: string): (r: Path) {
    if |name| > 0 && name[0] == '/' then Path(true, Parts(name))
    else Path(base.absolute, base.parts + Parts(name))
  }

  /**
   * The folder a capture goes to (lines 164-167): `filepath/Organized/name`
   * without `--output`, `output/name` with it.
   */
  function OutputFolder(filepath: Path, output: Option<Path>, name: string): (r: Path)
    ensures var root := if output.None? then Path(filepath.absolute, filepath.parts + ["Organized"]) else output.value;
      |name| == 0 || name[0] != '/' ==>
        r.absolute == root.absolute && r.parts == root.parts + Parts(name)
  {
    PlainNameParts("Organized");
    match output
    case None => Join(Join(filepath, "Organized"), name)
    case Some(out) => Join(out, name)
  }

  /** A folder name that is one plain component becomes the last component of the folder. */
  lemma OutputFolderOfPlainName(filepath: Path, output: Option<Path>, name: string)
    requires IsPart(name)
    ensures var root := if output.None? then Path(filepath.absolute, filepath.parts + ["Organized"]) else output.value;
      OutputFolder(filepath, output, name) == Path(root.absolute, root.parts + [name])
  {
    PlainNameParts(name);
  }

  /**
   * A name that starts with `/` replaces the root: `joinpath` makes the
   * capture land at that absolute path, outside the organised folder.
   */
  lemma OutputFolderOfAbsoluteName(filepath: Path, output: Option<Path>, name: string)
    requires IsPart(name)
    ensures OutputFolder(filepath, output, "/" + name) == Path(true, [name])
  {
    var s := "/" + name;
    assert Parts(s) == [name] by {
      assert SlashIndex(s) == 0 && s[..0] == "";
      assert s[1..] == name;
      PlainNameParts(name);
    }
    assert Join(Path(filepath.absolute, filepath.parts + ["Organized"]), s) == Path(true, [name]);
  }

  /** A name with a `/` in it makes nested folders. */
  lemma OutputFolderOfNameWithSlash(filepath: Path, output: Option<Path>, a: string, b: string)
    requires IsPart(a) && IsPart(b)
    ensures OutputFolder(filepath, output, a + "/" + b).parts
         == (if output.None? then filepath.parts + ["Organized"] else output.value.parts) + [a, b]
  {
    PartsJoinParts([a, b]);
    assert JoinParts([a, b]) == a + "/" + b;
  }

  /** A capture file: its stem and its suffix (`.jpg` or `.mp4`). */
  datatype MediaFile = MediaFile(stem: string, suffix: string) {
    function Name(): string {
      stem + suffix
    }
  }

  /** The command-line settings `checkFolders` reads. */
  datatype Settings = Settings(filepath: Path, output: Option<Path>, stripRegions: bool)

  /** One `copy` into `folder`, landing at `target`, whose times are then set to `time`. */
  datatype Copy = Copy(source: MediaFile, folder: Path, target: Path, time: DateTime)

  /** The copy made for a file whose stem classified as `c`. */
  function Place(f: MediaFile, c: Capture, settings: Settings, idname: map<string, string>): Copy
  {
    var folder := OutputFolder(settings.filepath, settings.output, CheckId(c.gameId, idname, settings.stripRegions));
    Copy(f, folder, Path(folder.absolute, folder.parts + [f.Name()]), c.time)
  }

  /** What becomes of one file: its copy, or nothing when its stem does not classify. */
  function Decide(f: MediaFile, settings: Settings, idname: map<string, string>): Option<Copy> {
    match Classify(f.stem)
    case Skip => None
    case Parsed(c) => Some(Place(f, c, settings, idname))
  }

  /** `Decide` for fixed settings and registry, as a function of the file. */
  function Decider(settings: Settings, idname: map<string, string>): MediaFile -> Option<Copy> {
    f => Decide(f, settings, idname)
  }

  /** A file is copied exactly when its stem classifies. */
  lemma DecideSome(f: MediaFile, settings: Settings, idname: map<string, string>)
    ensures Decide(f, settings, idname).Some? <==> Classify(f.stem).Parsed?
  {
  }

  lemma AppendTwo(xs: seq<string>, a: string, b: string)
    ensures xs + [a] + [b] == xs + [a, b]
  {
  }

  /** A file whose stem classifies is placed by its capture. */
  lemma DecideParsed(f: MediaFile, c: Capture, settings: Settings, idname: map<string, string>)
    requires Classify(f.stem) == Parsed(c)
    ensures Decide(f, settings, idname) == Some(Place(f, c, settings, idname))
  {
  }

  /**
   * A game name that is one plain component puts the copy at
   * `<root>/<name>/<file name>`, timed with the capture time.
   */
  lemma DecideCopy(f: MediaFile, c: Capture, settings: Settings, idname: map<string, string>, name: string)
    requires Classify(f.stem) == Parsed(c)
    requires name == CheckId(c.gameId, idname, settings.stripRegions) && IsPart(name)
    ensures var root := if settings.output.None? then Path(settings.filepath.absolute, settings.filepath.parts + ["Organized"])
                        else settings.output.value;
      Decide(f, settings, idname)
        == Some(Copy(f, Path(root.absolute, root.parts + [name]), Path(root.absolute, root.parts + [name, f.Name()]), c.time))
  {
    var root := if settings.output.None? then Path(settings.filepath.absolute, settings.filepath.parts + ["Organized"])
                else settings.output.value;
    var folder := OutputFolder(settings.filepath, settings.output, name);
    assert folder == Path(root.absolute, root.parts + [name]) by {
      OutputFolderOfPlainName(settings.filepath, settings.output, name);
    }
    DecideParsed(f, c, settings, idname);
    AppendTwo(root.parts, name, f.Name());
  }

  /** What `checkFolders` prints after each file. */
  datatype Progress =
    | InvalidFilename(current: nat, stem: string)  // 'Invalid filename for media {current}: {stem}'
    | Organized(current: nat, total: nat)          // 'Organized {current} of {length} files.'

  /** What `checkFolders` has done so far: the success count, the copies and the printed lines. */
  datatype Run = Run(current: nat, copies: seq<Copy>, log: seq<Progress>)

  /**
   * One pass of the loop for file `f`: a file with no copy is reported with
   * the success count so far, not with its own position; a copied one
   * raises the count and reports it against `total`.
   */
  function Step(run: Run, f: MediaFile, outcome: Option<Copy>, total: nat): Run {
    match outcome
    case None => Run(run.current, run.copies, run.log + [InvalidFilename(run.current, f.stem)])
    case Some(copy) => Run(run.current + 1, run.copies + [copy], run.log + [Organized(run.current + 1, total)])
  }

  /** The loop run over `files`, the outcome of each file given by `decide`. */
  function Organize(files: seq<MediaFile>, decide: MediaFile -> Option<Copy>, total: nat): Run
    decreases |files|
  {
    if files == [] then Run(0, [], [])
    else
      var f := files[|files| - 1];
      Step(Organize(files[..|files| - 1], decide, total), f, decide(f), total)
  }

  /** The number of files `decide` gives a copy. */
  function Kept(files: seq<MediaFile>, decide: MediaFile -> Option<Copy>): nat
    decreases |files|
  {
    if files == [] then 0
    else Kept(files[..|files| - 1], decide) + (if decide(files[|files| - 1]).Some? then 1 else 0)
  }

  /** The number of files whose stem reads as a date-time and an id. */
  function CountParsed(files: seq<MediaFile>): nat
    decreases |files|
  {
    if files == [] then 0
    else CountParsed(files[..|files| - 1]) + (if Classify(files[|files| - 1].stem).Parsed? then 1 else 0)
  }

  /** The files the loop copies are exactly those whose stem classifies. */
  lemma {:induction false} KeptCountsParsed(files: seq<MediaFile>, settings: Settings, idname: map<string, string>)
    ensures Kept(files, Decider(settings, idname)) == CountParsed(files)
    decreases |files|
  {
    if files != [] {
      KeptCountsParsed(files[..|files| - 1], settings, idname);
      DecideSome(files[|files| - 1], settings, idname);
    }
  }

  lemma OrganizeStep(files: seq<MediaFile>, decide: MediaFile -> Option<Copy>, total: nat, k: nat)
    requires k < |files|
    ensures Organize(files[..k + 1], decide, total) == Step(Organize(files[..k], decide, total), files[k], decide(files[k]), total)
  {
    assert files[..k + 1][..k] == files[..k];
  }

  /** The count is the number of copies, one per file kept; one line is printed per file. */
  lemma {:induction false} OrganizeCounts(files: seq<MediaFile>, decide: MediaFile -> Option<Copy>, total: nat)
    ensures var r := Organize(files, decide, total);
      r.current == |r.copies| == Kept(files, decide) <= |files| && |r.log| == |files|
    decreases |files|
  {
    if files != [] {
      OrganizeCounts(files[..|files| - 1], decide, total);
    }
  }

  /** Later files only append: the run over a prefix is a prefix of the whole run. */
  lemma {:induction false} OrganizePrefix(files: seq<MediaFile>, decide: MediaFile -> Option<Copy>, total: nat, k: nat)
    requires k <= |files|
    ensures var r := Organize(files, decide, total);
      var p := Organize(files[..k], decide, total);
      p.current <= r.current && p.copies <= r.copies && p.log <= r.log
    decreases |files|
  {
    if k < |files| {
      var init := files[..|files| - 1];
      assert files[..k] == init[..k];
      OrganizePrefix(init, decide, total, k);
    } else {
      assert files[..k] == files;
    }
  }

  /**
   * The file at `i`: its line reports the count of copies before it (kept
   * or not), and a kept file's copy follows the copies of the files before it.
   */
  lemma OrganizeAt(files: seq<MediaFile>, decide: MediaFile -> Option<Copy>, total: nat, i: nat)
    requires i < |files|
    ensures var r := Organize(files, decide, total);
      var n := Kept(files[..i], decide);
      && |r.log| == |files|
      && r.log[i] == (if decide(files[i]).None? then InvalidFilename(n, files[i].stem) else Organized(n + 1, total))
      && (decide(files[i]).Some? ==> n < |r.copies| && r.copies[n] == decide(files[i]).value)
  {
    var r := Organize(files, decide, total);
    var p := Organize(files[..i], decide, total);
    OrganizeCounts(files, decide, total);
    OrganizeCounts(files[..i], decide, total);
    OrganizeStep(files, decide, total, i);
    OrganizePrefix(files, decide, total, i + 1);
    var q := Organize(files[..i + 1], decide, total);
    assert q.log[i] == r.log[i];
    if decide(files[i]).Some? {
      assert q.copies[p.current] == r.copies[p.current];
    }
  }

  /**
   * The body of `checkFolders`' loop for one file: classify its stem; a
   * stem that does not parse is reported with the success count so far,
   * otherwise the file is copied into its game's folder and counted.
   */
  method OrganizeFile(mediapath: MediaFile, settings: Settings, idname: map<string, string>, length: nat,
                      current: nat, copies: seq<Copy>, log: seq<Progress>)
    returns (current': nat, copies': seq<Copy>, log': seq<Progress>)
    ensures Run(current', copies', log') == Step(Run(current, copies, log), mediapath, Decide(mediapath, settings, idname), length)
  {
    current', copies' := current, copies;
    var classification := Classify(mediapath.stem);
    var line;
    if classification.Skip? {
      line := InvalidFilename(current, mediapath.stem);
    } else {
      var capture := classification.capture;
      var outputfolder := OutputFolder(settings.filepath, settings.output,
                                       CheckId(capture.gameId, idname, settings.stripRegions));
      var newfile := Path(outputfolder.absolute, outputfolder.parts + [mediapath.Name()]);
      copies' := copies + [Copy(mediapath, outputfolder, newfile, capture.time)];
      current' := current + 1;
      line := Organized(current', length);
    }
    log' := log + [line];
  }

  /**
   * `checkFolders(filelist)`: classify each stem, skip the ones that do
   * not parse, and copy the rest into their game's folder, counting them.
   */
  method CheckFolders(filelist: seq<MediaFile>, settings: Settings, idname: map<string, string>)
    returns (current: nat, copies: seq<Copy>, log: seq<Progress>)
    ensures Run(current, copies, log) == Organize(filelist, Decider(settings, idname), |filelist|)
    ensures current == |copies| == Kept(filelist, Decider(settings, idname)) <= |filelist|
    ensures current == CountParsed(filelist)
    ensures |log| == |filelist|
  {
    current, copies, log := 0, [], [];
    var length := |filelist|;
    var k := 0;
    while k < length
      invariant 0 <= k <= length
      invariant Run(current, copies, log) == Organize(filelist[..k], Decider(settings, idname), length)
    {
      current, copies, log := OrganizeFile(filelist[k], settings, idname, length, current, copies, log);
      OrganizeStep(filelist, Decider(settings, idname), length, k);
      k := k + 1;
    }
    assert filelist[..k] == filelist;
    OrganizeCounts(filelist, Decider(settings, idname), length);
    KeptCountsParsed(filelist, settings, idname);
  }

  /**
   * A folder for a rebuilt registry entry: the stored name with the region
   * dropped when stripping (provided the region is made of region codes),
   * the full stored name otherwise; an id no row produced goes to `Unknown`.
   */
  lemma RebuiltRegistryFolders(rows: seq<Registry.Row>, encrypt: Registry.Block -> Registry.Block, id: string)
    requires forall i :: 0 <= i < |rows| ==> !Registry.Malformed(rows[i])
    ensures var idname := Registry.Insert(map[], rows, encrypt);
      match Registry.LastRow(rows, id, encrypt)
      case None => CheckId(id, idname, true) == UNKNOWN && CheckId(id, idname, false) == UNKNOWN
      case Some(i) =>
        && CheckId(id, idname, false) == Registry.DisplayName(rows[i].name.value, rows[i].region.value)
        && (IsRegionRun(rows[i].region.value) ==> CheckId(id, idname, true) == Registry.Sanitize(rows[i].name.value))
  {
    Registry.InsertLastWriteWins(map[], rows, encrypt, id);
    match Registry.LastRow(rows, id, encrypt)
    case None =>
    case Some(i) =>
      var row := rows[i];
      if IsRegionRun(row.region.value) {
        StripRegionSuffix(Registry.Sanitize(row.name.value), row.region.value);
      }
  }

  /** No id a rebuilt registry holds starts with `-`. */
  lemma DashIdNotInRebuilt(rows: seq<Registry.Row>, encrypt: Registry.Block -> Registry.Block, id: string)
    requires forall i :: 0 <= i < |rows| ==> !Registry.Malformed(rows[i])
    ensures "-" + id !in Registry.Insert(map[], rows, encrypt)
  {
    if "-" + id in Registry.Insert(map[], rows, encrypt) {
      Registry.InsertKeysAreScreenshotIds(rows, encrypt, "-" + id);
    }
  }

  /**
   * A stem with 17 digits before the `-` is read with an id that keeps the
   * `-`, so on a rebuilt registry its capture goes to `Unknown`.
   */
  lemma SeventeenDigitNameUnknown(t: DateTime, ccc: string, id: string, rows: seq<Registry.Row>,
                                  encrypt: Registry.Block -> Registry.Block, stripRegions: bool)
    requires IsValidDateTime(t) && |ccc| == 3
    requires forall i :: 0 <= i < |rows| ==> !Registry.Malformed(rows[i])
    ensures var c := Classify(FormatTime(t) + ccc + "-" + id);
      c.Parsed? && CheckId(c.capture.gameId, Registry.Insert(map[], rows, encrypt), stripRegions) == UNKNOWN
  {
    SeventeenDigitName(t, ccc, id);
    DashIdNotInRebuilt(rows, encrypt, id);
  }

  /** An id the registry holds resolves to its stored name. */
  lemma SingleEntryLookup(id: string, name: string)
    ensures CheckId(id, map[id := name], false) == name
  {
  }

  /**
   * A single capture named by the console, taken at `t` by a game the
   * registry calls `name` (one plain component), organized into `root`
   * without stripping, is copied to `root/name/<its file name>`, timed `t`,
   * and reported as the first of one.
   */
  lemma SingleCapturePlacement(t: DateTime, cc: string, id: string, suffix: string,
                               filepath: Path, root: Path, name: string)
    requires IsValidDateTime(t) && |cc| == 2 && IsPart(name)
    ensures var f := MediaFile(FormatTime(t) + cc + "-" + id, suffix);
      var settings := Settings(filepath, Some(root), false);
      Organize([f], Decider(settings, map[id := name]), 1)
        == Run(1, [Copy(f, Path(root.absolute, root.parts + [name]), Path(root.absolute, root.parts + [name, f.Name()]), t)],
               [Organized(1, 1)])
  {
    var f := MediaFile(FormatTime(t) + cc + "-" + id, suffix);
    var settings := Settings(filepath, Some(root), false);
    var idname := map[id := name];
    var copy := Copy(f, Path(root.absolute, root.parts + [name]), Path(root.absolute, root.parts + [name, f.Name()]), t);
    assert Decide(f, settings, idname) == Some(copy) by {
      ConsoleName(t, cc, id);
      SingleEntryLookup(id, name);
      DecideCopy(f, Capture(t, id), settings, idname, name);
    }
    var d := Decider(settings, idname);
    assert d(f) == Some(copy);
    assert [f][..0] == [];
    assert Organize([f], d, 1) == Step(Run(0, [], []), f, Some(copy), 1);
  }
}
