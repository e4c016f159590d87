/** The names repackage_grib builds: where a field's archive files live,
    which monthly file holds a date, what the temporary and output files in
    the output directory are called, and the cdo command lines it runs. */
module Naming {
  import opened Strings
  import opened Calendar

  /** Base directory of the ERA5 archive. */
  const EraDir: string := "/g/data/rt52/era5/"

  // ---------------------------------------------------------------------
  // The archive
  // ---------------------------------------------------------------------

  /** ERADIR + "/%s-levels/reanalysis/%s/%4.4d/" % (stype, var, year), for
      the archive base `base` (EraDir in the running program). */
  function ArchiveDir(base: string, stype: string, name: string, year: nat): string
  {
    base + "/" + ((stype + "-levels") + "/" + ("reanalysis" + "/" + (name + "/" + (Pad(year, 4) + "/"))))
  }

  /** The '/'-separated components of an archive directory: those of the
      archive base (the slash after it doubles the one EraDir ends with),
      then "<stype>-levels", "reanalysis", the field name, the four-digit
      year and the empty component after the final slash. */
  lemma ArchiveDirComponents(base: string, stype: string, name: string, year: nat)
    requires '/' !in stype && '/' !in name
    ensures Split(ArchiveDir(base, stype, name, year), '/')
         == Split(base, '/') + [stype + "-levels", "reanalysis", name, Pad(year, 4), ""]
  {
    var y := Pad(year, 4);
    DigitsHaveNoSlash(y, year);
    SplitConcat(base, '/', (stype + "-levels") + "/" + ("reanalysis" + "/" + (name + "/" + (y + "/"))));
    ArchiveTailComponents(stype + "-levels", name, y);
  }

  lemma ArchiveTailComponents(levels: string, name: string, y: string)
    requires '/' !in levels && '/' !in name && '/' !in y
    ensures Split(levels + "/" + ("reanalysis" + "/" + (name + "/" + (y + "/"))), '/')
         == [levels, "reanalysis", name, y, ""]
  {
    var t4 := y + "/";
    var t3 := name + "/" + t4;
    var t2 := "reanalysis" + "/" + t3;
    assert Split("", '/') == [""];
    assert t4 == y + "/" + "";
    SplitAfterPiece(y, '/', "");
    SplitAfterPiece(name, '/', t4);
    SplitAfterPiece("reanalysis", '/', t3);
    SplitAfterPiece(levels, '/', t2);
  }

  lemma DigitsHaveNoSlash(y: string, year: nat)
    requires y == Pad(year, 4)
    ensures '/' !in y
  {
    PadValue(year, 4);
    forall i | 0 <= i < |y| ensures y[i] != '/' { assert IsDigit(y[i]); }
  }

  /** Two fields read the same archive directory only when they agree on
      level category, name and year. */
  lemma ArchiveDirInjective(base: string, s1: string, n1: string, y1: nat, s2: string, n2: string, y2: nat)
    requires '/' !in s1 && '/' !in n1 && '/' !in s2 && '/' !in n2
    ensures ArchiveDir(base, s1, n1, y1) == ArchiveDir(base, s2, n2, y2) <==> s1 == s2 && n1 == n2 && y1 == y2
  {
    if ArchiveDir(base, s1, n1, y1) == ArchiveDir(base, s2, n2, y2) {
      ArchiveDirComponents(base, s1, n1, y1);
      ArchiveDirComponents(base, s2, n2, y2);
      var l1, l2 := s1 + "-levels", s2 + "-levels";
      var p1, p2 := Split(ArchiveDir(base, s1, n1, y1), '/'), Split(ArchiveDir(base, s2, n2, y2), '/');
      var k := |Split(base, '/')|;
      assert p1[k] == l1 && p2[k] == l2;
      assert p1[k + 2] == n1 && p2[k + 2] == n2;
      assert p1[k + 3] == Pad(y1, 4) && p2[k + 3] == Pad(y2, 4);
      assert s1 == l1[..|s1|] && s2 == l2[..|s2|];
      PadValue(y1, 4);
      PadValue(y2, 4);
    }
  }

  /** The files of a directory listing whose names contain the token, in listing order. */
  function Matching(files: seq<string>, token: string): (m: seq<string>)
    ensures |m| <= |files|
  {
    if files == [] then []
    else (if Contains(files[0], token) then [files[0]] else []) + Matching(files[1..], token)
  }

  /** `[f for f in files if yyyymm in f][0]`; None stands for the IndexError
      of an empty match list. */
  function SelectMonthFile(files: seq<string>, token: string): Option<string>
  {
    var m := Matching(files, token);
    if m == [] then None else Some(m[0])
  }

  /** The selected file is the first listing entry that contains the token;
      there is none exactly when no entry contains it. */
  lemma {:induction false} SelectMonthFileFirst(files: seq<string>, token: string)
    ensures SelectMonthFile(files, token).None? <==> forall i :: 0 <= i < |files| ==> !Contains(files[i], token)
    ensures SelectMonthFile(files, token).Some? ==>
      exists i :: && 0 <= i < |files| && SelectMonthFile(files, token) == Some(files[i])
                  && Contains(files[i], token)
                  && forall j :: 0 <= j < i ==> !Contains(files[j], token)
  {
    if files != [] {
      SelectMonthFileFirst(files[1..], token);
      if !Contains(files[0], token) {
        assert Matching(files, token) == Matching(files[1..], token);
        if SelectMonthFile(files[1..], token).Some? {
          var i :| && 0 <= i < |files[1..]| && SelectMonthFile(files[1..], token) == Some(files[1..][i])
                   && Contains(files[1..][i], token)
                   && forall j :: 0 <= j < i ==> !Contains(files[1..][j], token);
          assert forall j :: 0 <= j < i + 1 ==> !Contains(files[j], token) by {
            forall j | 0 <= j < i + 1 ensures !Contains(files[j], token) {
              if j > 0 { assert files[j] == files[1..][j - 1]; }
            }
          }
          assert SelectMonthFile(files, token) == Some(files[i + 1]);
        } else {
          forall i | 0 <= i < |files| ensures !Contains(files[i], token) {
            if i > 0 { assert files[i] == files[1..][i - 1]; }
          }
        }
      } else {
        assert Matching(files, token)[0] == files[0];
        assert SelectMonthFile(files, token) == Some(files[0]);
      }
    }
  }

  /** The month token is six digits: the four-digit year, then the two-digit
      month, so it names the year and month of the date and nothing else. */
  lemma MonthTokenFields(dt: DateTime)
    requires Valid(dt)
    ensures var t := MonthToken(dt);
      && |t| == 6 && AllDigits(t)
      && DecimalValue(t[..4]) == dt.year && DecimalValue(t[4..]) == dt.month
  {
    PadFields(dt);
    var t := MonthToken(dt);
    assert t[..4] == Pad(dt.year, 4) && t[4..] == Pad(dt.month, 2);
  }

  // ---------------------------------------------------------------------
  // Files in the output directory
  // ---------------------------------------------------------------------

  /** `r.replace("0.", "")` on the "%10.10f" rendering of the random number. */
  function RandomSuffix(formatted: string): string
  {
    ReplaceAll(formatted, "0.", "")
  }

  /** For a rendering "0." followed by digits, the suffix is those digits. */
  lemma RandomSuffixDigits(digits: string)
    requires AllDigits(digits)
    ensures RandomSuffix("0." + digits) == digits
  {
    var s := "0." + digits;
    assert s[..2] == "0." && s[2..] == digits;
    forall i ensures !OccursAt(digits, "0.", i) {
      if 0 <= i && i + 2 <= |digits| {
        assert digits[i..i + 2][1] == digits[i + 1];
        assert IsDigit(digits[i + 1]);
      }
    }
    ReplaceAbsent(digits, "0.", "");
  }

  /** var + "_" + compact_dt_string + "_" + r + ".nc": one field's temporary file. */
  function TempName(name: string, compact: string, r: string): string
  {
    name + "_" + compact + "_" + r + ".nc"
  }

  /** The scratch name a cdo rewrite writes to before mv puts it back. */
  function SwapName(f: string): string
  {
    f + ".1"
  }

  /** "ec_grib_" + compact_dt_string + ".nc": the merged netCDF file. */
  function CombinedName(compact: string): string
  {
    "ec_grib_" + compact + ".nc"
  }

  /** outfname.replace(".nc", ""): the GRIB file the run leaves behind. */
  function TargetName(compact: string): string
  {
    ReplaceAll(CombinedName(compact), ".nc", "")
  }

  /** For a real compact stamp, removing ".nc" only drops the final
      extension: the output is "ec_grib_YYYYMMDDHHMM.t+000". */
  lemma TargetNameDropsExtension(dt: DateTime)
    requires Valid(dt)
    ensures TargetName(CompactFormat(dt)) == "ec_grib_" + CompactFormat(dt)
  {
    var c := CompactFormat(dt);
    CompactLayout(dt);
    var s := "ec_grib_" + c;
    var u := s + ".nc";
    assert CombinedName(c) == u;
    forall i | 0 <= i < |s| ensures !OccursAt(u, ".nc", i) {
      if i + 3 <= |u| {
        assert u[i..i + 3][0] == u[i] && u[i..i + 3][1] == u[i + 1];
      }
      if i < 8 {
        assert u[i] == "ec_grib_"[i];
      } else if i < 20 {
        assert u[i] == c[..12][i - 8];
        assert IsDigit(u[i]);
      } else {
        assert u[i] == c[12..][i - 20];
        if i == 20 { assert u[i + 1] == c[12..][1]; }
      }
    }
    ReplaceSuffix(s, ".nc", "");
  }

  /** Within one run, distinct field names give distinct temporary files. */
  lemma TempNameInjective(n1: string, n2: string, compact: string, r: string)
    ensures TempName(n1, compact, r) == TempName(n2, compact, r) <==> n1 == n2
  {
    var tail := "_" + compact + "_" + r + ".nc";
    assert TempName(n1, compact, r) == n1 + tail && TempName(n2, compact, r) == n2 + tail;
    if TempName(n1, compact, r) == TempName(n2, compact, r) {
      assert n1 == (n1 + tail)[..|n1|];
      assert n2 == (n2 + tail)[..|n2|];
    }
  }

  /** The names one run writes never clash across kinds: a temporary file,
      a swap file, the merged file and the output are all different names
      whenever the field names are non-empty and do not start with 'e'. */
  lemma RunNamesDisjoint(n: string, m: string, compact: string, r: string)
    requires |n| >= 1 && n[0] != 'e' && |m| >= 1 && m[0] != 'e'
    ensures TempName(n, compact, r) != SwapName(TempName(m, compact, r))
    ensures TempName(n, compact, r) != CombinedName(compact)
    ensures TempName(n, compact, r) != "ec_grib_" + compact
    ensures SwapName(TempName(n, compact, r)) != CombinedName(compact)
    ensures SwapName(TempName(n, compact, r)) != "ec_grib_" + compact
    ensures CombinedName(compact) != "ec_grib_" + compact
  {
    var t, w := TempName(n, compact, r), SwapName(TempName(m, compact, r));
    assert t[|t| - 1] == 'c' && w[|w| - 1] == '1';
    assert t[0] == n[0] && SwapName(t)[0] == n[0];
    assert CombinedName(compact)[0] == 'e' && ("ec_grib_" + compact)[0] == 'e';
  }

  // ---------------------------------------------------------------------
  // cdo command lines
  // ---------------------------------------------------------------------

  /** Select the requested date-time from a monthly archive file. */
  function SeldateCmd(dtString: string, filedir: string, fname: string, out: string): string
  {
    "cdo --eccodes seldate," + dtString + " " + filedir + "/" + fname + " " + out
  }

  /** Rename the sea-ice variable siconc to ci, writing the swap file. */
  function ChnameCmd(out: string): string
  {
    "cdo --eccodes chname,siconc,ci " + out + " " + SwapName(out)
  }

  /** Attach the table-128 code and table number, writing the swap file. */
  function SetAttrCmd(name: string, code: int, out: string): string
  {
    "cdo -setattribute," + name + "@code=" + IntText(code) + " -setattribute," + name + "@table=128 "
      + out + " " + SwapName(out)
  }

  /** Merge the temporaries, joined by single spaces, into the combined file. */
  function MergeCmd(files: seq<string>, out: string): string
  {
    "cdo" + " " + ("--eccodes" + " " + ("merge" + " " + (Join(files, ' ') + " " + out)))
  }

  /** Convert the combined netCDF file to GRIB edition 1. */
  function ConvertCmd(combined: string, target: string): string
  {
    "cdo --eccodes -f grb1 copy " + combined + " " + target
  }

  /** The merge command's words are the tool and its operator, then the
      temporaries in the given order, then the combined file. */
  lemma MergeCmdWords(files: seq<string>, out: string)
    requires |files| >= 1 && forall i :: 0 <= i < |files| ==> ' ' !in files[i]
    requires ' ' !in out
    ensures Split(MergeCmd(files, out), ' ') == ["cdo", "--eccodes", "merge"] + files + [out]
  {
    var t3 := Join(files, ' ') + " " + out;
    var t2 := "merge" + " " + t3;
    var t1 := "--eccodes" + " " + t2;
    MergeOperands(files, out);
    SplitAfterPiece("merge", ' ', t3);
    SplitAfterPiece("--eccodes", ' ', t2);
    SplitAfterPiece("cdo", ' ', t1);
  }

  lemma MergeOperands(files: seq<string>, out: string)
    requires |files| >= 1 && forall i :: 0 <= i < |files| ==> ' ' !in files[i]
    requires ' ' !in out
    ensures Split(Join(files, ' ') + " " + out, ' ') == files + [out]
  {
    SplitJoin(files, ' ');
    SplitConcat(Join(files, ' '), ' ', out);
    SplitNoSeparator(out, ' ');
  }
}
