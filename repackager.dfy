/** repackage_grib as a state machine over the output directory: for each
    catalog field it extracts the requested date-time from the monthly
    archive file into a temporary file, renames the sea-ice variable,
    attaches the GRIB code, then removes stale outputs, merges the
    temporaries, converts the result to GRIB1 and cleans up.

    The external tools are opaque: a file's content is the term of tool runs
    that produced it, and which command lines fail is a parameter. */
module Repackager {
  import opened Strings
  import opened Calendar
  import opened Catalog
  import opened Naming

  /** What a file holds: an archive file, or the output of a command run on
      the contents of its inputs. */
  datatype Content = Archived(path: string) | Made(cmd: string, inputs: seq<Content>)

  /** The exceptions that end a run early. */
  datatype RepackError =
    | BadTimestamp(text: string)              // strptime rejects the date-time string
    | MissingArchiveDir(dir: string)          // os.listdir finds no such directory
    | NoMonthFile(dir: string, token: string) // no listing entry contains the month token

  /** The contents of the named files, in order. */
  function ContentsOf(files: map<string, Content>, names: seq<string>): (cs: seq<Content>)
    requires forall i :: 0 <= i < |names| ==> names[i] in files
    ensures |cs| == |names| && forall i :: 0 <= i < |names| ==> cs[i] == files[names[i]]
  {
    if names == [] then [] else [files[names[0]]] + ContentsOf(files, names[1..])
  }

  /** The directory after a cdo run that reads `inputs` from it and writes
      `output`: the run succeeds when its command line is not one of the
      failing ones and every input exists; a failed run changes nothing. */
  function AfterCdo(files: map<string, Content>, cmd: string, inputs: seq<string>, output: string, failing: set<string>)
    : map<string, Content>
  {
    if cmd !in failing && forall i :: 0 <= i < |inputs| ==> inputs[i] in files
    then files[output := Made(cmd, ContentsOf(files, inputs))]
    else files
  }

  /** Two directory states that agree on every name outside `names`. */
  predicate SameOutside(a: map<string, Content>, b: map<string, Content>, names: set<string>)
  {
    a - names == b - names
  }

  /** The output directory: file names mapped to what they hold. */
  class OutputDir {
    var files: map<string, Content>

    constructor (initial: map<string, Content>)
      ensures files == initial
    {
      files := initial;
    }

    /** os.path.exists(name). */
    method Exists(name: string) returns (b: bool)
      ensures b <==> name in files
    {
      b := name in files;
    }

    /** os.remove(name) of an existing file. */
    method Remove(name: string)
      requires name in files
      modifies this
      ensures files == old(files) - {name}
    {
      files := files - {name};
    }

    /** os.system("mv " + src + " " + dst): the file moves, replacing any
        file called dst; without a src (or onto itself) mv fails and nothing
        changes. */
    method Move(src: string, dst: string)
      modifies this
      ensures src in old(files) && src != dst ==> files == (old(files) - {src})[dst := old(files)[src]]
      ensures src !in old(files) || src == dst ==> files == old(files)
    {
      if src in files && src != dst {
        files := (files - {src})[dst := files[src]];
      }
    }

    /** os.system(cmd) for a cdo run on files of this directory. */
    method Cdo(cmd: string, inputs: seq<string>, output: string, failing: set<string>)
      modifies this
      ensures files == AfterCdo(old(files), cmd, inputs, output, failing)
    {
      files := AfterCdo(files, cmd, inputs, output, failing);
    }

    /** os.system(cmd) for a cdo run that reads one archive file. */
    method Extract(cmd: string, source: string, output: string, failing: set<string>)
      modifies this
      ensures files == if cmd in failing then old(files) else old(files)[output := Made(cmd, [Archived(source)])]
    {
      if cmd !in failing {
        files := files[output := Made(cmd, [Archived(source)])];
      }
    }

    /** A cdo rewrite of `name` into its swap file, then `mv` of the swap file
        back: on success the file holds the rewrite under its original name;
        either way no swap file is left. When the rewrite fails, a swap file
        left over from before still replaces the file. */
    method RewriteInPlace(cmd: string, name: string, failing: set<string>)
      modifies this
      ensures SwapName(name) !in files
      ensures cmd !in failing && name in old(files)
        ==> files == (old(files) - {SwapName(name)})[name := Made(cmd, [old(files)[name]])]
      ensures !(cmd !in failing && name in old(files)) && SwapName(name) in old(files)
        ==> files == (old(files) - {SwapName(name)})[name := old(files)[SwapName(name)]]
      ensures !(cmd !in failing && name in old(files)) && SwapName(name) !in old(files)
        ==> files == old(files)
    {
      var swap := SwapName(name);
      assert |swap| == |name| + 2;
      if cmd !in failing && name in files {
        assert ContentsOf(files, [name]) == [files[name]];
      }
      Cdo(cmd, [name], swap, failing);
      ghost var written := files;
      Move(swap, name);
      if swap in written {
        assert (written - {swap})[name := written[swap]] == (old(files) - {swap})[name := written[swap]];
      }
    }
  }


  // ---------------------------------------------------------------------
  // What one run should produce
  // ---------------------------------------------------------------------

  /** The names in a list, as a set. */
  function NameSet(s: seq<string>): (ns: set<string>)
    ensures forall i :: 0 <= i < |s| ==> s[i] in ns
    ensures forall n :: n in ns ==> exists i :: 0 <= i < |s| && s[i] == n
  {
    set n | n in s
  }

  /** A catalog whose entries can share one output directory: no two share
      a name, and no name is empty or starts like the outputs ("ec_"). */
  predicate WellNamed(specs: seq<FieldSpec>)
  {
    && (forall i, j :: 0 <= i < j < |specs| ==> specs[i].name != specs[j].name)
    && (forall k :: 0 <= k < |specs| ==> |specs[k].name| >= 1 && specs[k].name[0] != 'e')
  }

  /** The archive file a field reads for date-time dt: its directory and the
      first listing entry naming the month, or the error the lookup raises. */
  function Locate(archive: map<string, seq<string>>, f: FieldSpec, dt: DateTime): Result<(string, string), RepackError>
    requires Valid(dt)
  {
    var filedir := ArchiveDir(EraDir, f.stype, f.name, dt.year);
    if filedir !in archive then Err(MissingArchiveDir(filedir))
    else match SelectMonthFile(archive[filedir], MonthToken(dt))
      case None => Err(NoMonthFile(filedir, MonthToken(dt)))
      case Some(fname) => Ok((filedir, fname))
  }

  /** Every field of the catalog finds its archive file. */
  predicate AllLocated(archive: map<string, seq<string>>, specs: seq<FieldSpec>, dt: DateTime)
    requires Valid(dt)
  {
    forall k :: 0 <= k < |specs| ==> Locate(archive, specs[k], dt).Ok?
  }

  /** e is the error of the first field, in catalog order, whose lookup fails. */
  predicate FirstFailure(archive: map<string, seq<string>>, specs: seq<FieldSpec>, dt: DateTime, e: RepackError)
    requires Valid(dt)
  {
    exists k :: 0 <= k < |specs| && Locate(archive, specs[k], dt) == Err(e)
      && forall j :: 0 <= j < k ==> Locate(archive, specs[j], dt).Ok?
  }

  /** Every field whose lookup, and every earlier one, succeeded has its
      temporary file in the directory: what a run that stops at a failed
      lookup leaves behind, since nothing cleans up on that path. */
  predicate TempsLeft(files: map<string, Content>, archive: map<string, seq<string>>, specs: seq<FieldSpec>,
                      dt: DateTime, r: string)
    requires Valid(dt)
  {
    forall k :: 0 <= k < |specs| && (forall j :: 0 <= j <= k ==> Locate(archive, specs[j], dt).Ok?) ==>
      TempName(specs[k].name, CompactFormat(dt), r) in files
  }

  /** The temporary files of a run, one per catalog entry in catalog order. */
  function Temps(specs: seq<FieldSpec>, compact: string, r: string): (ts: seq<string>)
    ensures |ts| == |specs|
    ensures forall k :: 0 <= k < |specs| ==> ts[k] == TempName(specs[k].name, compact, r)
  {
    seq(|specs|, k requires 0 <= k < |specs| => TempName(specs[k].name, compact, r))
  }

  /** The temporaries and their swap files. */
  function WorkNames(specs: seq<FieldSpec>, compact: string, r: string): set<string>
  {
    NameSet(Temps(specs, compact, r)) + (set n | n in Temps(specs, compact, r) :: SwapName(n))
  }

  /** Every name a run writes: temporaries, their swap files, the merged file
      and the output. */
  function RunNames(specs: seq<FieldSpec>, compact: string, r: string): set<string>
  {
    WorkNames(specs, compact, r) + {CombinedName(compact), TargetName(compact)}
  }

  /** A temporary file after its field's steps, when every command succeeds. */
  function FieldContent(f: FieldSpec, dtString: string, compact: string, r: string, filedir: string, fname: string)
    : Content
  {
    var out := TempName(f.name, compact, r);
    var selected := Made(SeldateCmd(dtString, filedir, fname, out), [Archived(filedir + "/" + fname)]);
    var renamed := if f.name == "ci" then Made(ChnameCmd(out), [selected]) else selected;
    Made(SetAttrCmd(f.name, f.code, out), [renamed])
  }

  /** The k-th temporary's content when every command succeeds, for a field
      whose archive file was found. */
  function FieldContentAt(archive: map<string, seq<string>>, specs: seq<FieldSpec>, dtString: string,
                          dt: DateTime, r: string, k: int): Content
    requires Valid(dt) && 0 <= k < |specs| && Locate(archive, specs[k], dt).Ok?
  {
    var loc := Locate(archive, specs[k], dt).value;
    FieldContent(specs[k], dtString, CompactFormat(dt), r, loc.0, loc.1)
  }

  /** The temporaries' contents, in catalog order, when every command succeeds. */
  function FieldContents(archive: map<string, seq<string>>, specs: seq<FieldSpec>, dtString: string, dt: DateTime, r: string)
    : (cs: seq<Content>)
    requires Valid(dt) && AllLocated(archive, specs, dt)
    ensures |cs| == |specs|
    ensures forall k :: 0 <= k < |specs| ==> cs[k] == FieldContentAt(archive, specs, dtString, dt, r, k)
  {
    seq(|specs|, k requires 0 <= k < |specs| => FieldContentAt(archive, specs, dtString, dt, r, k))
  }

  /** The output file when every command succeeds: the GRIB1 conversion of
      the merge of the temporaries, in catalog order. */
  function Expected(archive: map<string, seq<string>>, specs: seq<FieldSpec>, dtString: string, dt: DateTime, r: string)
    : Content
    requires Valid(dt) && AllLocated(archive, specs, dt)
  {
    var compact := CompactFormat(dt);
    var combined := CombinedName(compact);
    Made(ConvertCmd(combined, TargetName(compact)),
         [Made(MergeCmd(Temps(specs, compact, r), combined), FieldContents(archive, specs, dtString, dt, r))])
  }

  /** The directory after the steps that follow the field loop: remove a
      stale merged file and output, merge the temporaries into `combined`,
      convert that to `target`, delete the temporaries and the merged file. */
  function AfterFinish(files: map<string, Content>, mergeFiles: seq<string>, combined: string, target: string,
                       failing: set<string>): map<string, Content>
  {
    var cleared := files - {combined, target};
    var merged := AfterCdo(cleared, MergeCmd(mergeFiles, combined), mergeFiles, combined, failing);
    var converted := AfterCdo(merged, ConvertCmd(combined, target), [combined], target, failing);
    converted - NameSet(mergeFiles) - {combined}
  }

  // ---------------------------------------------------------------------
  // The run
  // ---------------------------------------------------------------------

  /** The loop body for one catalog field once its archive file is known:
      select the date-time, rename the sea-ice variable, attach the code. */
  method PackageField(dir: OutputDir, f: FieldSpec, dtString: string, compact: string, r: string,
                      filedir: string, fname: string, failing: set<string>)
    modifies dir
    ensures var out := TempName(f.name, compact, r);
      && SameOutside(dir.files, old(dir.files), {out, SwapName(out)})
      && SwapName(out) !in dir.files
      && (failing == {} ==> out in dir.files && dir.files[out] == FieldContent(f, dtString, compact, r, filedir, fname))
  {
    var out := TempName(f.name, compact, r);
    ghost var before := dir.files;
    dir.Extract(SeldateCmd(dtString, filedir, fname, out), filedir + "/" + fname, out, failing);
    ghost var extracted := dir.files;
    assert extracted - {out} == before - {out};
    if f.name == "ci" {
      dir.RewriteInPlace(ChnameCmd(out), out, failing);
    }
    ghost var renamed := dir.files;
    dir.RewriteInPlace(SetAttrCmd(f.name, f.code, out), out, failing);
    FieldStepFrame(before, extracted, renamed, dir.files, out);
  }

  /** The field loop (the loop over fields() with merge_files.append): one
      temporary per catalog entry, in catalog order, until a lookup fails. */
  method PackageFields(dir: OutputDir, lines: seq<string>, specs: seq<FieldSpec>, dtString: string, dt: DateTime,
                       r: string, archive: map<string, seq<string>>, failing: set<string>)
    returns (result: Result<seq<string>, RepackError>)
    requires Valid(dt) && WellNamed(specs)
    requires |lines| == |specs| && forall k :: 0 <= k < |lines| ==> ParseLine(lines[k]) == Ok(specs[k])
    modifies dir
    ensures SameOutside(dir.files, old(dir.files), WorkNames(specs, CompactFormat(dt), r))
    ensures result.Ok? <==> AllLocated(archive, specs, dt)
    ensures result.Err? ==> FirstFailure(archive, specs, dt, result.error)
    ensures result.Err? && failing == {} ==> TempsLeft(dir.files, archive, specs, dt, r)
    ensures result.Ok? ==>
      && result.value == Temps(specs, CompactFormat(dt), r)
      && FieldsDone(dir.files, result.value, FieldContents(archive, specs, dtString, dt, r), failing == {})
  {
    var compact := CompactFormat(dt);
    ghost var temps := Temps(specs, compact, r);
    ghost var work := WorkNames(specs, compact, r);
    ghost var made: seq<Content> := [];
    var mergeFiles: seq<string> := [];
    var i := 0;
    while i < |lines|
      invariant 0 <= i <= |lines| && |made| == i
      invariant mergeFiles == temps[..i]
      invariant Recorded(archive, specs, dtString, dt, r, made)
      invariant SameOutside(dir.files, old(dir.files), work)
      invariant FieldsDone(dir.files, temps, made, failing == {})
    {
      var f := ParseLine(lines[i]).value;
      assert f == specs[i];
      var located := Locate(archive, f, dt);
      if located.Err? {
        RecordedFailure(archive, specs, dtString, dt, r, made, located.error);
        if failing == {} {
          FailureLeavesTemps(dir.files, archive, specs, dt, r, made);
        }
        return Err(located.error);
      }
      var (filedir, fname) := located.value;
      var out := TempName(f.name, compact, r);
      ghost var before := dir.files;
      PackageField(dir, f, dtString, compact, r, filedir, fname, failing);
      ghost var c := FieldContent(f, dtString, compact, r, filedir, fname);
      FieldLoopStep(before, dir.files, old(dir.files), specs, compact, r, made, c, failing == {});
      ExtendPrefix(temps, i);
      RecordField(archive, specs, dtString, dt, r, made, c);
      made := made + [c];
      mergeFiles := mergeFiles + [out];
      i := i + 1;
    }
    RecordedAll(archive, specs, dtString, dt, r, made);
    assert mergeFiles == temps;
    return Ok(mergeFiles);
  }

  /** Deletes each of the named files that exists (the cleanup loop). */
  method Cleanup(dir: OutputDir, names: seq<string>)
    modifies dir
    ensures dir.files == old(dir.files) - NameSet(names)
  {
    var j := 0;
    while j < |names|
      invariant 0 <= j <= |names|
      invariant dir.files == old(dir.files) - NameSet(names[..j])
    {
      var present := dir.Exists(names[j]);
      if present {
        dir.Remove(names[j]);
      }
      assert NameSet(names[..j + 1]) == NameSet(names[..j]) + {names[j]} by {
        assert names[..j + 1] == names[..j] + [names[j]];
      }
      j := j + 1;
    }
    assert names[..j] == names;
  }

  /** Removes `name` if it exists. */
  method RemoveIfPresent(dir: OutputDir, name: string)
    modifies dir
    ensures dir.files == old(dir.files) - {name}
  {
    var present := dir.Exists(name);
    if present {
      dir.Remove(name);
    }
  }

  /** After the field loop: delete any stale merged file and output, merge
      the temporaries into `combined`, convert it to `target`, then delete
      the temporaries and the merged file. */
  method Finish(dir: OutputDir, mergeFiles: seq<string>, combined: string, target: string, failing: set<string>)
    modifies dir
    ensures dir.files == AfterFinish(old(dir.files), mergeFiles, combined, target, failing)
  {
    RemoveIfPresent(dir, combined);
    RemoveIfPresent(dir, target);
    assert dir.files == old(dir.files) - {combined, target};
    dir.Cdo(MergeCmd(mergeFiles, combined), mergeFiles, combined, failing);
    dir.Cdo(ConvertCmd(combined, target), [combined], target, failing);
    Cleanup(dir, mergeFiles);
    RemoveIfPresent(dir, combined);
  }

  /** repackage_grib(dt_string, outdir) with random suffix r, archive
      listings `archive` (directory to file names) and the command lines
      that fail. */
  method Repackage(dir: OutputDir, dtString: string, r: string, archive: map<string, seq<string>>, failing: set<string>)
    returns (result: Result<(), RepackError>)
    modifies dir
    ensures ParseIso(dtString).None? ==> result == Err(BadTimestamp(dtString)) && dir.files == old(dir.files)
    ensures ParseIso(dtString).Some? ==>
      var dt := ParseIso(dtString).value;
      var compact := CompactFormat(dt);
      var names := RunNames(Specs(), compact, r);
      && (result.Ok? <==> AllLocated(archive, Specs(), dt))
      && SameOutside(dir.files, old(dir.files), names)
      && (result.Err? ==> SameOutside(dir.files, old(dir.files), WorkNames(Specs(), compact, r)))
      && (result.Err? ==> FirstFailure(archive, Specs(), dt, result.error))
      && (result.Err? && failing == {} ==> TempsLeft(dir.files, archive, Specs(), dt, r))
      && (result.Ok? ==> forall n :: n in names && n != TargetName(compact) ==> n !in dir.files)
      && (result.Ok? && TargetName(compact) in dir.files ==>
            var out := dir.files[TargetName(compact)];
            && out.Made? && out.cmd == ConvertCmd(CombinedName(compact), TargetName(compact)) && |out.inputs| == 1
            && out.inputs[0].Made? && out.inputs[0].cmd == MergeCmd(Temps(Specs(), compact, r), CombinedName(compact))
            && |out.inputs[0].inputs| == FieldCount)
      && (result.Ok? && failing == {} ==>
            dir.files == (old(dir.files) - names)[TargetName(compact) := Expected(archive, Specs(), dtString, dt, r)])
  {
    var parsed := ParseIso(dtString);
    if parsed.None? {
      return Err(BadTimestamp(dtString));
    }
    var dt := parsed.value;
    var compact := CompactFormat(dt);
    var specs := Specs();
    CatalogWellNamed();
    LinesParse();
    var fields := PackageFields(dir, Lines(), specs, dtString, dt, r, archive, failing);
    if fields.Err? {
      WidenSameOutside(dir.files, old(dir.files), WorkNames(specs, compact, r), RunNames(specs, compact, r));
      return Err(fields.error);
    }
    var mergeFiles := fields.value;
    ghost var afterFields := dir.files;
    var combined := CombinedName(compact);
    var target := ReplaceAll(combined, ".nc", "");
    Finish(dir, mergeFiles, combined, target, failing);
    RunFrame(old(dir.files), afterFields, specs, dtString, dt, r, archive, failing);
    RunNameFacts(specs, dt, r);
    FinishClears(afterFields, mergeFiles, combined, target, failing);
    if failing == {} {
      RunExact(old(dir.files), afterFields, specs, dtString, dt, r, archive);
    }
    return Ok(());
  }

  // ---------------------------------------------------------------------
  // Facts the run relies on
  // ---------------------------------------------------------------------

  /** The catalog of fields() can share one output directory. */
  lemma CatalogWellNamed()
    ensures WellNamed(Specs())
  {
    NamesDistinct();
    NameShapes();
  }

  /** `made` holds, for the first |made| catalog entries, the content each
      temporary gets when every command succeeds; each of them was found. */
  predicate Recorded(archive: map<string, seq<string>>, specs: seq<FieldSpec>, dtString: string, dt: DateTime,
                     r: string, made: seq<Content>)
    requires Valid(dt) && |made| <= |specs|
  {
    forall k :: 0 <= k < |made| ==>
      Locate(archive, specs[k], dt).Ok? && made[k] == FieldContentAt(archive, specs, dtString, dt, r, k)
  }

  /** Recording the next field's content keeps the record of contents. */
  lemma RecordField(archive: map<string, seq<string>>, specs: seq<FieldSpec>, dtString: string, dt: DateTime,
                    r: string, made: seq<Content>, c: Content)
    requires Valid(dt) && |made| < |specs| && Recorded(archive, specs, dtString, dt, r, made)
    requires Locate(archive, specs[|made|], dt).Ok? && c == FieldContentAt(archive, specs, dtString, dt, r, |made|)
    ensures Recorded(archive, specs, dtString, dt, r, made + [c])
  {
  }

  /** A lookup that fails after a complete record is the first failure, and
      not every field is then found. */
  lemma RecordedFailure(archive: map<string, seq<string>>, specs: seq<FieldSpec>, dtString: string, dt: DateTime,
                        r: string, made: seq<Content>, e: RepackError)
    requires Valid(dt) && |made| < |specs| && Recorded(archive, specs, dtString, dt, r, made)
    requires Locate(archive, specs[|made|], dt) == Err(e)
    ensures FirstFailure(archive, specs, dt, e) && !AllLocated(archive, specs, dt)
  {
  }

  /** When the loop stops at a failed lookup with every command having
      succeeded, the temporaries of the fields before it stay behind. */
  lemma FailureLeavesTemps(files: map<string, Content>, archive: map<string, seq<string>>, specs: seq<FieldSpec>,
                           dt: DateTime, r: string, made: seq<Content>)
    requires Valid(dt) && |made| < |specs| && Locate(archive, specs[|made|], dt).Err?
    requires FieldsDone(files, Temps(specs, CompactFormat(dt), r), made, true)
    ensures TempsLeft(files, archive, specs, dt, r)
  {
    var temps := Temps(specs, CompactFormat(dt), r);
    forall k | 0 <= k < |specs| && (forall j :: 0 <= j <= k ==> Locate(archive, specs[j], dt).Ok?)
      ensures TempName(specs[k].name, CompactFormat(dt), r) in files
    {
      assert temps[k] in files;
    }
  }

  /** A record covering the whole catalog means every field was found, and
      it lists the expected contents. */
  lemma RecordedAll(archive: map<string, seq<string>>, specs: seq<FieldSpec>, dtString: string, dt: DateTime,
                    r: string, made: seq<Content>)
    requires Valid(dt) && |made| == |specs| && Recorded(archive, specs, dtString, dt, r, made)
    ensures AllLocated(archive, specs, dt) && made == FieldContents(archive, specs, dtString, dt, r)
  {
  }

  /** A prefix followed by the next element is the next prefix. */
  lemma ExtendPrefix<T>(s: seq<T>, i: int)
    requires 0 <= i < |s|
    ensures s[..i] + [s[i]] == s[..i + 1]
  {
  }

  /** Agreeing outside a set implies agreeing outside any larger set. */
  lemma WidenSameOutside(a: map<string, Content>, b: map<string, Content>, small: set<string>, large: set<string>)
    requires SameOutside(a, b, small) && small <= large
    ensures SameOutside(a, b, large)
  {
    forall n | n !in large ensures (n in a <==> n in b) && (n in a ==> a[n] == b[n]) {
      assert n !in small;
      assert n in a <==> n in a - small;
      assert n in b <==> n in b - small;
    }
  }

  /** The three steps of one field touch only its temporary and swap file. */
  lemma FieldStepFrame(before: map<string, Content>, extracted: map<string, Content>,
                       renamed: map<string, Content>, after: map<string, Content>, out: string)
    requires SameOutside(extracted, before, {out})
    requires SameOutside(renamed, extracted, {out, SwapName(out)})
    requires SameOutside(after, renamed, {out, SwapName(out)})
    ensures SameOutside(after, before, {out, SwapName(out)})
  {
    WidenSameOutside(extracted, before, {out}, {out, SwapName(out)});
  }

  /** Temporaries of distinct catalog entries differ, and no temporary is
      another one's swap file. */
  lemma TempsDistinct(specs: seq<FieldSpec>, compact: string, r: string)
    requires WellNamed(specs)
    ensures var ts := Temps(specs, compact, r);
      && (forall i, j :: 0 <= i < j < |ts| ==> ts[i] != ts[j])
      && (forall i, j :: 0 <= i < |ts| && 0 <= j < |ts| ==> ts[i] != SwapName(ts[j]))
  {
    var ts := Temps(specs, compact, r);
    forall i, j | 0 <= i < j < |ts| ensures ts[i] != ts[j] {
      TempNameInjective(specs[i].name, specs[j].name, compact, r);
    }
    forall i, j | 0 <= i < |ts| && 0 <= j < |ts| ensures ts[i] != SwapName(ts[j]) {
      RunNamesDisjoint(specs[i].name, specs[j].name, compact, r);
    }
  }

  /** The field loop's record of finished fields: for the first |made|
      temporaries no swap file is left, and when every command succeeds
      each holds its content in `made`. */
  predicate FieldsDone(files: map<string, Content>, temps: seq<string>, made: seq<Content>, complete: bool)
    requires |made| <= |temps|
  {
    && (forall k :: 0 <= k < |made| ==> SwapName(temps[k]) !in files)
    && (complete ==> forall k :: 0 <= k < |made| ==> temps[k] in files && files[temps[k]] == made[k])
  }

  /** One iteration of the field loop keeps the loop's frame and extends
      the record of finished fields by one. */
  lemma FieldLoopStep(before: map<string, Content>, after: map<string, Content>, start: map<string, Content>,
                      specs: seq<FieldSpec>, compact: string, r: string, made: seq<Content>, c: Content,
                      complete: bool)
    requires WellNamed(specs) && |made| < |specs|
    requires var temps, i := Temps(specs, compact, r), |made|;
      && SameOutside(before, start, WorkNames(specs, compact, r))
      && FieldsDone(before, temps, made, complete)
      && SameOutside(after, before, {temps[i], SwapName(temps[i])})
      && SwapName(temps[i]) !in after
      && (complete ==> temps[i] in after && after[temps[i]] == c)
    ensures SameOutside(after, start, WorkNames(specs, compact, r))
    ensures FieldsDone(after, Temps(specs, compact, r), made + [c], complete)
  {
    var temps, i := Temps(specs, compact, r), |made|;
    var work := WorkNames(specs, compact, r);
    var local := {temps[i], SwapName(temps[i])};
    TempsDistinct(specs, compact, r);
    assert temps[i] in temps;
    assert local <= work;
    WidenSameOutside(after, before, local, work);
    forall k | 0 <= k < i
      ensures SwapName(temps[k]) !in after
      ensures complete ==> temps[k] in after && after[temps[k]] == made[k]
    {
      assert temps[k] !in local;
      assert SwapName(temps[k]) != SwapName(temps[i]) by {
        assert SwapName(temps[k])[..|temps[k]|] == temps[k];
        assert SwapName(temps[i])[..|temps[i]|] == temps[i];
      }
      assert SwapName(temps[k]) !in local;
      assert temps[k] in after <==> temps[k] in after - local;
      assert temps[k] in before <==> temps[k] in before - local;
      assert SwapName(temps[k]) in after <==> SwapName(temps[k]) in after - local;
      assert SwapName(temps[k]) in before <==> SwapName(temps[k]) in before - local;
    }
  }

  /** The steps after the field loop touch only the temporaries, the merged
      file and the output. */
  lemma FinishFrame(files: map<string, Content>, mergeFiles: seq<string>, combined: string, target: string,
                    failing: set<string>)
    ensures SameOutside(AfterFinish(files, mergeFiles, combined, target, failing), files,
                        NameSet(mergeFiles) + {combined, target})
  {
    var touched := NameSet(mergeFiles) + {combined, target};
    var final := AfterFinish(files, mergeFiles, combined, target, failing);
    forall n | n !in touched ensures (n in final <==> n in files) && (n in final ==> final[n] == files[n]) {
    }
  }

  /** After those steps the temporaries and the merged file are gone, and an
      output, if there is one, is the conversion of this merge of the
      temporaries: a stale output never survives, even when the merge or
      the conversion fails. */
  lemma FinishClears(files: map<string, Content>, mergeFiles: seq<string>, combined: string, target: string,
                     failing: set<string>)
    requires combined != target
    requires forall k :: 0 <= k < |mergeFiles| ==> mergeFiles[k] != combined && mergeFiles[k] != target
    ensures var final := AfterFinish(files, mergeFiles, combined, target, failing);
      && combined !in final
      && (forall k :: 0 <= k < |mergeFiles| ==> mergeFiles[k] !in final)
      && (target in final ==>
            && (forall k :: 0 <= k < |mergeFiles| ==> mergeFiles[k] in files)
            && final[target] == Made(ConvertCmd(combined, target),
                                     [Made(MergeCmd(mergeFiles, combined), ContentsOf(files, mergeFiles))]))
  {
    var cleared := files - {combined, target};
    var merged := AfterCdo(cleared, MergeCmd(mergeFiles, combined), mergeFiles, combined, failing);
    var converted := AfterCdo(merged, ConvertCmd(combined, target), [combined], target, failing);
    var final := AfterFinish(files, mergeFiles, combined, target, failing);
    if target in final {
      assert target !in NameSet(mergeFiles);
      assert target in converted && target !in merged;
      assert combined in merged;
      assert forall k :: 0 <= k < |mergeFiles| ==> mergeFiles[k] in cleared;
      ContentsUnchanged(files, cleared, mergeFiles);
      assert ContentsOf(merged, [combined]) == [merged[combined]];
    }
  }

  /** When no command fails and every temporary exists, the output holds the
      conversion of the merge of the temporaries, in list order. */
  lemma FinishOutput(files: map<string, Content>, mergeFiles: seq<string>, combined: string, target: string)
    requires combined != target
    requires forall k :: 0 <= k < |mergeFiles| ==> mergeFiles[k] != combined && mergeFiles[k] != target
    requires forall k :: 0 <= k < |mergeFiles| ==> mergeFiles[k] in files
    ensures var final := AfterFinish(files, mergeFiles, combined, target, {});
      && target in final
      && final[target] == Made(ConvertCmd(combined, target),
                               [Made(MergeCmd(mergeFiles, combined), ContentsOf(files, mergeFiles))])
  {
    var cleared := files - {combined, target};
    var contents := ContentsOf(files, mergeFiles);
    ContentsUnchanged(files, cleared, mergeFiles);
    var merged := cleared[combined := Made(MergeCmd(mergeFiles, combined), contents)];
    assert AfterCdo(cleared, MergeCmd(mergeFiles, combined), mergeFiles, combined, {}) == merged;
    assert ContentsOf(merged, [combined]) == [merged[combined]];
    var converted := merged[target := Made(ConvertCmd(combined, target), [merged[combined]])];
    assert AfterCdo(merged, ConvertCmd(combined, target), [combined], target, {}) == converted;
    assert target !in NameSet(mergeFiles);
  }

  /** Finished temporaries hold the recorded contents, in order. */
  lemma DoneContents(files: map<string, Content>, temps: seq<string>, made: seq<Content>)
    requires |made| == |temps| && FieldsDone(files, temps, made, true)
    ensures (forall k :: 0 <= k < |temps| ==> temps[k] in files) && ContentsOf(files, temps) == made
  {
  }

  /** Files present in both states with the same contents read the same. */
  lemma ContentsUnchanged(a: map<string, Content>, b: map<string, Content>, names: seq<string>)
    requires forall k :: 0 <= k < |names| ==> names[k] in a && names[k] in b && a[names[k]] == b[names[k]]
    ensures ContentsOf(a, names) == ContentsOf(b, names)
  {
  }

  /** The names of one run never clash across kinds. */
  lemma RunNameFacts(specs: seq<FieldSpec>, dt: DateTime, r: string)
    requires Valid(dt) && WellNamed(specs)
    ensures var compact := CompactFormat(dt);
      var ts, combined, target := Temps(specs, compact, r), CombinedName(compact), TargetName(compact);
      && combined != target
      && (forall k :: 0 <= k < |ts| ==> ts[k] != combined && ts[k] != target)
      && (forall k :: 0 <= k < |ts| ==> SwapName(ts[k]) != combined && SwapName(ts[k]) != target)
  {
    var compact := CompactFormat(dt);
    TargetNameDropsExtension(dt);
    forall k | 0 <= k < |specs|
      ensures TempName(specs[k].name, compact, r) != CombinedName(compact)
      ensures TempName(specs[k].name, compact, r) != "ec_grib_" + compact
      ensures SwapName(TempName(specs[k].name, compact, r)) != CombinedName(compact)
      ensures SwapName(TempName(specs[k].name, compact, r)) != "ec_grib_" + compact
      ensures CombinedName(compact) != "ec_grib_" + compact
    {
      RunNamesDisjoint(specs[k].name, specs[k].name, compact, r);
    }
    if |specs| == 0 {
      RunNamesDisjoint("a", "a", compact, r);
    }
  }

  /** A successful run changes nothing outside its names, and of its names
      only the output can remain. */
  lemma RunFrame(start: map<string, Content>, afterFields: map<string, Content>, specs: seq<FieldSpec>,
                 dtString: string, dt: DateTime, r: string, archive: map<string, seq<string>>, failing: set<string>)
    requires Valid(dt) && WellNamed(specs) && AllLocated(archive, specs, dt)
    requires var compact := CompactFormat(dt);
      && SameOutside(afterFields, start, WorkNames(specs, compact, r))
      && FieldsDone(afterFields, Temps(specs, compact, r), FieldContents(archive, specs, dtString, dt, r), failing == {})
    ensures var compact := CompactFormat(dt);
      var final := AfterFinish(afterFields, Temps(specs, compact, r), CombinedName(compact), TargetName(compact), failing);
      && SameOutside(final, start, RunNames(specs, compact, r))
      && (forall n :: n in RunNames(specs, compact, r) && n != TargetName(compact) ==> n !in final)
  {
    var compact := CompactFormat(dt);
    var temps, combined, target := Temps(specs, compact, r), CombinedName(compact), TargetName(compact);
    var names := RunNames(specs, compact, r);
    var final := AfterFinish(afterFields, temps, combined, target, failing);
    var finishNames := NameSet(temps) + {combined, target};
    RunNameFacts(specs, dt, r);
    FinishFrame(afterFields, temps, combined, target, failing);
    FinishClears(afterFields, temps, combined, target, failing);
    WidenSameOutside(final, afterFields, finishNames, names);
    WidenSameOutside(afterFields, start, WorkNames(specs, compact, r), names);
    forall n | n in names && n != target ensures n !in final {
      if n !in finishNames {
        var k :| 0 <= k < |temps| && n == SwapName(temps[k]);
        assert n !in afterFields;
        assert n !in afterFields - finishNames;
      }
    }
  }

  /** When no command fails, a successful run replaces its names by the
      expected output and leaves the rest of the directory as it was. */
  lemma RunExact(start: map<string, Content>, afterFields: map<string, Content>, specs: seq<FieldSpec>,
                 dtString: string, dt: DateTime, r: string, archive: map<string, seq<string>>)
    requires Valid(dt) && WellNamed(specs) && AllLocated(archive, specs, dt)
    requires var compact := CompactFormat(dt);
      && SameOutside(afterFields, start, WorkNames(specs, compact, r))
      && FieldsDone(afterFields, Temps(specs, compact, r), FieldContents(archive, specs, dtString, dt, r), true)
    ensures var compact := CompactFormat(dt);
      var final := AfterFinish(afterFields, Temps(specs, compact, r), CombinedName(compact), TargetName(compact), {});
      final == (start - RunNames(specs, compact, r))[TargetName(compact) := Expected(archive, specs, dtString, dt, r)]
  {
    var compact := CompactFormat(dt);
    var temps, combined, target := Temps(specs, compact, r), CombinedName(compact), TargetName(compact);
    var names := RunNames(specs, compact, r);
    var final := AfterFinish(afterFields, temps, combined, target, {});
    RunNameFacts(specs, dt, r);
    RunFrame(start, afterFields, specs, dtString, dt, r, archive, {});
    FinishOutput(afterFields, temps, combined, target);
    DoneContents(afterFields, temps, FieldContents(archive, specs, dtString, dt, r));
    var e := Expected(archive, specs, dtString, dt, r);
    assert final[target] == e;
    forall n ensures (n in final <==> n in (start - names)[target := e])
                  && (n in final ==> final[n] == (start - names)[target := e][n]) {
      if n !in names {
        assert n in final <==> n in final - names;
        assert n in start <==> n in start - names;
      }
    }
  }
}
