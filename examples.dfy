/** The validator model's verdict, proved on a few concrete tables. */
module Examples {
  import opened Wrappers
  import opened Checks
  import opened Validator

  const OceanEntry: Entry :=
    map["gridname" := Str("OCN"), "fieldname_code" := Str("sst"),
        "interpol_method" := Str("none"), "factor" := Num(1.0)]

  const OceanEntryWithFile: Entry := OceanEntry["fieldname_file" := Str("sst_obs")]

  /** A table holding two entries: the second is checked with the bindings the first leaves. */
  lemma TwoEntries(t: Table, a: Entry, b: Entry)
    requires Flatten(t) == [a, b]
    ensures Validate(t) ==
      if CheckEntry(Unbound, a).Fail? then CheckEntry(Unbound, a)
      else CheckEntry(Inherit(Unbound, a), b)
  {
    RunStep([], a, Unbound);
    assert [] + [a] == [a];
    if CheckEntry(Unbound, a).Pass? {
      RunStep([a], b, Inherit(Unbound, a));
      assert [a] + [b] == [a, b];
    } else {
      RunFailureIsFinal([a], [a, b]);
    }
  }

  /** A table holding one entry: it is checked with nothing bound. */
  lemma OneEntry(t: Table, a: Entry)
    requires Flatten(t) == [a]
    ensures Validate(t) == CheckEntry(Unbound, a)
  {
    RunStep([], a, Unbound);
    assert [] + [a] == [a];
  }

  /** A table of two sections of one entry each visits those two entries in order. */
  lemma TwoSingletonSections(t: Table)
    requires |t| == 2 && |t[0].entries| == 1 && |t[1].entries| == 1
    ensures Flatten(t) == [t[0].entries[0], t[1].entries[0]]
  {
    assert t[..0] == [];
    FlattenStep(t, 0);
    FlattenStep(t, 1);
    assert t[..2] == t;
  }

  /** An entry without `fieldname_file` as the first entry of a table: the variable is unbound when it is read. */
  lemma FirstEntryWithoutFileIsRejected()
    ensures Validate([Section("ocean", [OceanEntry])]) == Fail(UnboundFieldnameFile)
  {
    var t := [Section("ocean", [OceanEntry])];
    assert t[..0] == [];
    OneEntry(t, OceanEntry);
  }

  /** The same entry accepted once it names its file. */
  lemma EntryWithFileIsAccepted()
    ensures Validate([Section("ocean", [OceanEntryWithFile])]) == Pass
  {
    var t := [Section("ocean", [OceanEntryWithFile])];
    assert t[..0] == [];
    OneEntry(t, OceanEntryWithFile);
  }

  /** A later entry, even in another section, reuses the file named by an earlier one. */
  lemma LaterEntryInheritsFile()
    ensures Validate([Section("ocean", [OceanEntryWithFile]), Section("land", [OceanEntry])]) == Pass
  {
    var t := [Section("ocean", [OceanEntryWithFile]), Section("land", [OceanEntry])];
    TwoSingletonSections(t);
    assert CheckEntry(Unbound, OceanEntryWithFile) == Pass;
    var c := Inherit(Unbound, OceanEntryWithFile);
    assert c == Carry(Some(Str("sst_obs")), Some(Str("none")));
    assert CheckEntry(c, OceanEntry) == Pass;
    TwoEntries(t, OceanEntryWithFile, OceanEntry);
  }

  /** A grid name outside the four allowed ones is reported with its value. */
  lemma UnknownGridnameIsReported()
    ensures Validate([Section("ocean", [OceanEntryWithFile["gridname" := Str("SEA")]])]) == Fail(BadGridname(Str("SEA")))
  {
    var e := OceanEntryWithFile["gridname" := Str("SEA")];
    var t := [Section("ocean", [e])];
    assert t[..0] == [];
    OneEntry(t, e);
  }

  /** An ocean entry with an inside region whose latitude starts at 10 and ends at 5. */
  const InvertedLatitudeEntry: Entry :=
    OceanEntryWithFile["region_type" := Str("inside_region")]
      ["lat_start" := Num(10.0)]["lat_end" := Num(5.0)]["lon_start" := Num(0.0)]["lon_end" := Num(20.0)]

  /** Its region check stops at the latitude axis: 10 > 5. */
  lemma InvertedLatitudeEntryFails()
    ensures CheckEntry(Unbound, InvertedLatitudeEntry) == Fail(StartAfterEnd(Lat))
  {
    assert CheckRegionEntry(InvertedLatitudeEntry) == Fail(StartAfterEnd(Lat));
  }

  /** A region whose latitude starts after it ends is reported against the latitude axis. */
  lemma InvertedLatitudeIsReported()
    ensures Validate([Section("ocean", [InvertedLatitudeEntry])]) == Fail(StartAfterEnd(Lat))
  {
    var t := [Section("ocean", [InvertedLatitudeEntry])];
    assert t[..0] == [];
    InvertedLatitudeEntryFails();
    OneEntry(t, InvertedLatitudeEntry);
  }
}
