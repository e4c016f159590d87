/** The field catalog: which ERA5 variables go into each GRIB file, in
    which order, from which level category, and under which code of
    ECMWF parameter table 128. The source keeps it as comma-delimited
    text lines and parses each line when it packages a field. */
module Catalog {
  import opened Strings

  datatype Category = Single | Pressure

  /** One parsed catalog line: the ERA5 short name, the level category as
      written ("single" or "pressure"), and the table-128 code. */
  datatype FieldSpec = FieldSpec(name: string, stype: string, code: int)

  /** Why a line does not unpack: `a, b, c = ...split(",")` with a part
      count other than three, or int() refusing the third part. */
  datatype LineError = WrongPartCount(found: nat) | BadCode(text: string)

  const FieldCount: nat := 19

  /** fields(): one comma-delimited line per field, in packaging order. */
  function Lines(): seq<string>
  {
    [ "skt, single, 235",
      "sp, single, 134",
      "ci, single, 31",
      "sst, single, 34",
      "sd, single, 141",
      "stl1, single, 139",
      "stl2, single, 170",
      "stl3, single, 183",
      "stl4, single, 236",
      "swvl1, single, 39",
      "swvl2, single, 40",
      "swvl3, single, 41",
      "swvl4, single, 42",
      "u, pressure, 131",
      "v, pressure, 132",
      "t, pressure, 130",
      "q, pressure, 133",
      "lsm, single, 172",
      "z, single, 129" ]
  }

  /** `var, stype, eccode = line.replace(" ", "").split(",")` followed by `int(eccode)`. */
  function ParseLine(line: string): Result<FieldSpec, LineError>
  {
    var parts := Split(ReplaceAll(line, " ", ""), ',');
    if |parts| != 3 then Err(WrongPartCount(|parts|))
    else match ParseInt(parts[2])
      case None => Err(BadCode(parts[2]))
      case Some(c) => Ok(FieldSpec(parts[0], parts[1], c))
  }

  /** The catalog as typed entries: what each line of fields() stands for. */
  function Specs(): seq<FieldSpec>
  {
    [ FieldSpec("skt", "single", 235),
      FieldSpec("sp", "single", 134),
      FieldSpec("ci", "single", 31),
      FieldSpec("sst", "single", 34),
      FieldSpec("sd", "single", 141),
      FieldSpec("stl1", "single", 139),
      FieldSpec("stl2", "single", 170),
      FieldSpec("stl3", "single", 183),
      FieldSpec("stl4", "single", 236),
      FieldSpec("swvl1", "single", 39),
      FieldSpec("swvl2", "single", 40),
      FieldSpec("swvl3", "single", 41),
      FieldSpec("swvl4", "single", 42),
      FieldSpec("u", "pressure", 131),
      FieldSpec("v", "pressure", 132),
      FieldSpec("t", "pressure", 130),
      FieldSpec("q", "pressure", 133),
      FieldSpec("lsm", "single", 172),
      FieldSpec("z", "single", 129) ]
  }

  /** The level category a category string stands for, if any. */
  function CategoryOf(stype: string): Option<Category>
  {
    if stype == "single" then Some(Single)
    else if stype == "pressure" then Some(Pressure)
    else None
  }

  /** The layout of a catalog line: name, category and code separated by ", ". */
  function FormatLine(f: FieldSpec): string
    requires f.code >= 0
  {
    f.name + ", " + f.stype + ", " + Decimal(f.code)
  }

  /** A name or category that survives the line format unchanged. */
  predicate Plain(s: string)
  {
    ' ' !in s && ',' !in s
  }

  /** Parsing a formatted line recovers the entry it was made from. */
  lemma ParseFormatLine(f: FieldSpec)
    requires Plain(f.name) && Plain(f.stype) && f.code >= 0
    ensures ParseLine(FormatLine(f)) == Ok(f)
  {
    var d := Decimal(f.code);
    assert ' ' !in d && ',' !in d by {
      forall i | 0 <= i < |d| ensures d[i] != ' ' && d[i] != ',' {
        assert IsDigit(d[i]);
      }
    }
    var stripped := f.name + "," + f.stype + "," + d;
    StripLine(f.name, f.stype, d);
    var parts := [f.name, f.stype, d];
    assert Join(parts, ',') == stripped by {
      assert Join(parts[1..], ',') == f.stype + "," + d by {
        assert Join(parts[2..], ',') == d;
      }
    }
    SplitJoin(parts, ',');
    ParseIntDecimal(f.code);
  }

  /** fields() lists, line by line, exactly the entries of Specs(). */
  lemma LinesFormatSpecs()
    ensures |Lines()| == |Specs()| == FieldCount
    ensures forall k :: 0 <= k < FieldCount ==> Specs()[k].code >= 0 && Lines()[k] == FormatLine(Specs()[k])
  {
    forall k | 0 <= k < FieldCount
      ensures Specs()[k].code >= 0 && Lines()[k] == FormatLine(Specs()[k])
    {
      if k == 0 {
        Line0();
      } else if k == 1 {
        Line1();
      } else if k == 2 {
        Line2();
      } else if k == 3 {
        Line3();
      } else if k == 4 {
        Line4();
      } else if k == 5 {
        Line5();
      } else if k == 6 {
        Line6();
      } else if k == 7 {
        Line7();
      } else if k == 8 {
        Line8();
      } else if k == 9 {
        Line9();
      } else if k == 10 {
        Line10();
      } else if k == 11 {
        Line11();
      } else if k == 12 {
        Line12();
      } else if k == 13 {
        Line13();
      } else if k == 14 {
        Line14();
      } else if k == 15 {
        Line15();
      } else if k == 16 {
        Line16();
      } else if k == 17 {
        Line17();
      } else if k == 18 {
        Line18();
      }
    }
  }

  // One lemma per line keeps each literal comparison a small proof of its own.
  lemma Line0() ensures Lines()[0] == FormatLine(Specs()[0]) { }
  lemma Line1() ensures Lines()[1] == FormatLine(Specs()[1]) { }
  lemma Line2() ensures Lines()[2] == FormatLine(Specs()[2]) { }
  lemma Line3() ensures Lines()[3] == FormatLine(Specs()[3]) { }
  lemma Line4() ensures Lines()[4] == FormatLine(Specs()[4]) { }
  lemma Line5() ensures Lines()[5] == FormatLine(Specs()[5]) { }
  lemma Line6() ensures Lines()[6] == FormatLine(Specs()[6]) { }
  lemma Line7() ensures Lines()[7] == FormatLine(Specs()[7]) { }
  lemma Line8() ensures Lines()[8] == FormatLine(Specs()[8]) { }
  lemma Line9() ensures Lines()[9] == FormatLine(Specs()[9]) { }
  lemma Line10() ensures Lines()[10] == FormatLine(Specs()[10]) { }
  lemma Line11() ensures Lines()[11] == FormatLine(Specs()[11]) { }
  lemma Line12() ensures Lines()[12] == FormatLine(Specs()[12]) { }
  lemma Line13() ensures Lines()[13] == FormatLine(Specs()[13]) { }
  lemma Line14() ensures Lines()[14] == FormatLine(Specs()[14]) { }
  lemma Line15() ensures Lines()[15] == FormatLine(Specs()[15]) { }
  lemma Line16() ensures Lines()[16] == FormatLine(Specs()[16]) { }
  lemma Line17() ensures Lines()[17] == FormatLine(Specs()[17]) { }
  lemma Line18() ensures Lines()[18] == FormatLine(Specs()[18]) { }

  /** Every line of fields() unpacks into exactly three parts, and the k-th
      line parses to the k-th entry of Specs(). */
  lemma LinesParse()
    ensures |Lines()| == FieldCount
    ensures forall k :: 0 <= k < FieldCount ==> ParseLine(Lines()[k]) == Ok(Specs()[k])
  {
    LinesFormatSpecs();
    forall k | 0 <= k < FieldCount ensures ParseLine(Lines()[k]) == Ok(Specs()[k]) {
      SpecsPlain(k);
      ParseFormatLine(Specs()[k]);
    }
  }

  /** Removing the spaces of a formatted line leaves the three parts joined by commas. */
  lemma StripLine(name: string, stype: string, d: string)
    requires ' ' !in name && ' ' !in stype && ' ' !in d
    ensures ReplaceAll(name + ", " + stype + ", " + d, " ", "") == name + "," + stype + "," + d
  {
    var sp := ", ";
    NoSpace(name);
    NoSpace(stype);
    NoSpace(d);
    assert ReplaceAll(sp, " ", "") == ",";
    ReplaceCharConcat(name, sp, " ", "");
    ReplaceCharConcat(name + sp, stype, " ", "");
    ReplaceCharConcat(name + sp + stype, sp, " ", "");
    ReplaceCharConcat(name + sp + stype + sp, d, " ", "");
  }

  lemma NoSpace(s: string)
    requires ' ' !in s
    ensures ReplaceAll(s, " ", "") == s
  {
    forall i ensures !OccursAt(s, " ", i) {
      if 0 <= i && i + 1 <= |s| {
        assert s[i..i + 1][0] == s[i];
      }
    }
    ReplaceAbsent(s, " ", "");
  }

  lemma SpecsPlain(k: int)
    requires 0 <= k < FieldCount
    ensures Plain(Specs()[k].name) && Plain(Specs()[k].stype)
  {
  }

  /** No two catalog entries share a name. */
  lemma NamesDistinct()
    ensures forall i, j :: 0 <= i < j < FieldCount ==> Specs()[i].name != Specs()[j].name
  {
  }

  /** Every entry is a single-level or a pressure-level field, and the
      pressure-level ones are exactly u, v, t and q. */
  lemma Categories()
    ensures forall k :: 0 <= k < FieldCount ==> CategoryOf(Specs()[k].stype).Some?
    ensures forall k :: 0 <= k < FieldCount ==>
      (CategoryOf(Specs()[k].stype) == Some(Pressure) <==> Specs()[k].name in {"u", "v", "t", "q"})
  {
  }

  /** Every code is a positive table-128 parameter number. */
  lemma CodesPositive()
    ensures forall k :: 0 <= k < FieldCount ==> Specs()[k].code > 0
  {
  }

  /** Names are short non-empty path components that never begin like the
      output files do ("ec_"). */
  lemma NameShapes()
    ensures forall k :: 0 <= k < FieldCount ==>
      && |Specs()[k].name| >= 1 && Specs()[k].name[0] != 'e'
      && '/' !in Specs()[k].name && ' ' !in Specs()[k].name
      && '/' !in Specs()[k].stype && ' ' !in Specs()[k].stype
  {
  }
}
