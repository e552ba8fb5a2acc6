/** The library's unit test: four lines of a real `/proc/modules` and the
    records they parse to. Each line is written as its space-separated fields,
    and each dependents field as its comma-separated entries with the trailing
    comma the kernel prints. */
module Samples {
  import opened Wrappers
  import opened Text
  import opened Decimal
  import opened Parser

  const Codecs: seq<string> :=
    ["snd_hda_codec_hdmi", "snd_hda_codec_realtek", "snd_hda_codec_generic", "snd_hda_intel"]
  const CoreUsers: seq<string> := Codecs + ["snd_hda_codec"]

  const Fields1: seq<string> := ["snd_hda_intel", "40960", "9", "-", "Live", "0x0000000000000000"]
  const Fields2: seq<string> :=
    ["snd_hda_codec", "126976", "4", Join(Codecs, ',') + ",", "Live", "0x0000000000000000"]
  const Fields3: seq<string> :=
    ["snd_hda_core", "81920", "5", Join(CoreUsers, ',') + ",", "Live", "0x0000000000000000"]
  const Fields4: seq<string> := ["nvidia_drm", "40960", "11", "-", "Live", "0x0000000000000000", "(POE)"]

  const Sample: seq<string> :=
    [Join(Fields1, ' '), Join(Fields2, ' '), Join(Fields3, ' '), Join(Fields4, ' ')]

  const Expected: seq<Module> := [
    Module("snd_hda_intel", 40960, []),
    Module("snd_hda_codec", 126976, Codecs),
    Module("snd_hda_core", 81920, CoreUsers),
    Module("nvidia_drm", 40960, [])
  ]

  /** A decimal literal of the samples and its value. */
  lemma SizeValue(s: string, n: U64)
    requires ParseU64(s) == Some(n)
    ensures IsU64Literal(s) && Value(Unsigned(s)) == n
  {
    ParseU64Meaning(s);
  }

  /** With no dependents the printed field is a lone comma, which has no entry. */
  lemma NoUsersTrailingComma()
    ensures UsedBy(Join([], ',') + ",") == []
  {
    var field := [','];
    assert Join([], ',') + "," == field;
    assert field != "-" by { assert field[0] != '-'; }
    SplitAtSep([], [], ',');
    assert [] + [','] + [] == field;
    assert Split(field, ',') == [[], []];
  }

  /** A single entry `-` printed with its comma is an entry, not the sentinel. */
  lemma DashUserTrailingComma()
    ensures UsedBy(Join(["-"], ',') + ",") == ["-"]
  {
    var field := ['-', ','];
    assert Join(["-"], ',') + "," == field;
    assert field != "-" by { assert |field| == 2; }
    SplitAtSep(['-'], [], ',');
    assert ['-'] + [','] + [] == field;
    SplitWithoutSep(['-'], ',');
    assert Split(field, ',') == [['-'], []];
    NonEmptyAppendEmpty([['-']]);
  }

  /** The trailing comma adds no entry: the dependents, however many, come
      back exactly. With none the field is a lone comma; a lone `-` entry is
      kept, because only the whole field `-` is the sentinel. */
  lemma UsersWithTrailingComma(names: seq<string>)
    requires forall i :: 0 <= i < |names| ==> names[i] != [] && ',' !in names[i] && ' ' !in names[i]
    ensures UsedBy(Join(names, ',') + ",") == names
    ensures ' ' !in Join(names, ',') + ","
  {
    var joined := Join(names, ',');
    if names == [] {
      NoUsersTrailingComma();
    } else if names == ["-"] {
      DashUserTrailingComma();
    } else {
      assert joined != "-" by {
        if |names| == 1 { assert joined == names[0]; }
        else { assert joined == names[0] + [','] + Join(names[1..], ','); }
      }
      UsedByTrailingComma(joined);
      UsedByJoin(names);
    }
    JoinAvoids(names, ',', ' ');
  }

  /** A line given by its fields parses to the record its fields describe. */
  lemma FieldsParse(fields: seq<string>, name: string, size: U64, users: seq<string>)
    requires |fields| >= 4
    requires forall i :: 0 <= i < |fields| ==> ' ' !in fields[i]
    requires fields[0] == name && ParseU64(fields[1]) == Some(size) && UsedBy(fields[3]) == users
    ensures Parse(Join(fields, ' ')) == Success(Module(name, size, users))
  {
    SizeValue(fields[1], size);
    ParseRecord(fields);
  }

  lemma Fields1NoSpace()
    ensures forall i :: 0 <= i < |Fields1| ==> ' ' !in Fields1[i]
  {
  }

  lemma Fields1Size()
    ensures ParseU64(Fields1[1]) == Some(40960)
  {
  }

  lemma Line1Parses()
    ensures Parse(Join(Fields1, ' ')) == Success(Expected[0])
  {
    Fields1NoSpace();
    Fields1Size();
    FieldsParse(Fields1, "snd_hda_intel", 40960, []);
  }

  lemma Fields2NoSpace()
    ensures forall i :: 0 <= i < |Fields2| ==> ' ' !in Fields2[i]
  {
    forall i | 0 <= i < |Fields2| ensures ' ' !in Fields2[i] {
      if i == 3 { UsersWithTrailingComma(Codecs); }
    }
  }

  lemma Fields2Size()
    ensures ParseU64(Fields2[1]) == Some(126976)
  {
  }

  lemma Fields2Users()
    ensures UsedBy(Fields2[3]) == Codecs
  {
    UsersWithTrailingComma(Codecs);
  }

  lemma Line2Parses()
    ensures Parse(Join(Fields2, ' ')) == Success(Expected[1])
  {
    Fields2NoSpace();
    Fields2Users();
    Fields2Size();
    FieldsParse(Fields2, "snd_hda_codec", 126976, Codecs);
  }

  lemma Fields3NoSpace()
    ensures forall i :: 0 <= i < |Fields3| ==> ' ' !in Fields3[i]
  {
    forall i | 0 <= i < |Fields3| ensures ' ' !in Fields3[i] {
      if i == 3 { UsersWithTrailingComma(CoreUsers); }
    }
  }

  lemma Fields3Size()
    ensures ParseU64(Fields3[1]) == Some(81920)
  {
  }

  lemma Fields3Users()
    ensures UsedBy(Fields3[3]) == CoreUsers
  {
    UsersWithTrailingComma(CoreUsers);
  }

  lemma Line3Parses()
    ensures Parse(Join(Fields3, ' ')) == Success(Expected[2])
  {
    Fields3NoSpace();
    Fields3Users();
    Fields3Size();
    FieldsParse(Fields3, "snd_hda_core", 81920, CoreUsers);
  }

  lemma Fields4NoSpace()
    ensures forall i :: 0 <= i < |Fields4| ==> ' ' !in Fields4[i]
  {
  }

  lemma Fields4Size()
    ensures ParseU64(Fields4[1]) == Some(40960)
  {
  }

  /** The `(POE)` taint annotation in a seventh field is ignored. */
  lemma Line4Parses()
    ensures Parse(Join(Fields4, ' ')) == Success(Expected[3])
  {
    Fields4NoSpace();
    Fields4Size();
    FieldsParse(Fields4, "nvidia_drm", 40960, []);
  }

  /** Seven fields joined: each separator sits between two neighbours. */
  lemma JoinSeven(a: string, b: string, c: string, d: string, e: string, f: string, g: string, sep: char)
    ensures Join([a, b, c, d, e, f, g], sep) ==
              a + [sep] + (b + [sep] + (c + [sep] + (d + [sep] + (e + [sep] + (f + [sep] + g)))))
  {
    assert [a, b, c, d, e, f, g][1..] == [b, c, d, e, f, g];
    assert [b, c, d, e, f, g][1..] == [c, d, e, f, g];
    assert [c, d, e, f, g][1..] == [d, e, f, g];
    assert [d, e, f, g][1..] == [e, f, g];
    assert [e, f, g][1..] == [f, g];
    assert [f, g][1..] == [g];
    assert Join([f, g], sep) == f + [sep] + g;
    assert Join([e, f, g], sep) == e + [sep] + Join([f, g], sep);
    assert Join([d, e, f, g], sep) == d + [sep] + Join([e, f, g], sep);
    assert Join([c, d, e, f, g], sep) == c + [sep] + Join([d, e, f, g], sep);
    assert Join([b, c, d, e, f, g], sep) == b + [sep] + Join([c, d, e, f, g], sep);
    assert Join([a, b, c, d, e, f, g], sep) == a + [sep] + Join([b, c, d, e, f, g], sep);
  }

  /** Six fields joined: each separator sits between two neighbours. */
  lemma JoinSix(a: string, b: string, c: string, d: string, e: string, f: string, sep: char)
    ensures Join([a, b, c, d, e, f], sep) ==
              a + [sep] + (b + [sep] + (c + [sep] + (d + [sep] + (e + [sep] + f))))
  {
    assert [a, b, c, d, e, f][1..] == [b, c, d, e, f];
    assert [b, c, d, e, f][1..] == [c, d, e, f];
    assert [c, d, e, f][1..] == [d, e, f];
    assert [d, e, f][1..] == [e, f];
    assert [e, f][1..] == [f];
    assert Join([e, f], sep) == e + [sep] + f;
    assert Join([d, e, f], sep) == d + [sep] + Join([e, f], sep);
    assert Join([c, d, e, f], sep) == c + [sep] + Join([d, e, f], sep);
    assert Join([b, c, d, e, f], sep) == b + [sep] + Join([c, d, e, f], sep);
  }

  /** The first sample line is the test's first line of text. */
  lemma Line1Text()
    ensures Join(Fields1, ' ') == "snd_hda_intel 40960 9 - Live 0x0000000000000000"
  {
    JoinSix("snd_hda_intel", "40960", "9", "-", "Live", "0x0000000000000000", ' ');
  }

  lemma Line4Pieces()
    ensures "nvidia_drm" + [' '] + ("40960" + [' '] + ("11" + [' '] + ("-" + [' '] + ("Live" + [' '] +
              ("0x0000000000000000" + [' '] + "(POE)"))))) ==
            "nvidia_drm 40960 11 - Live 0x0000000000000000 (POE)"
  {
  }

  /** The fourth sample line, `(POE)` included, is the test's fourth line of text. */
  lemma Line4Text()
    ensures Join(Fields4, ' ') == "nvidia_drm 40960 11 - Live 0x0000000000000000 (POE)"
  {
    JoinSeven("nvidia_drm", "40960", "11", "-", "Live", "0x0000000000000000", "(POE)", ' ');
    Line4Pieces();
  }

  /** The first and last lines of `Sample` are the test's text, character for character. */
  lemma SampleText()
    ensures Sample[0] == "snd_hda_intel 40960 9 - Live 0x0000000000000000"
    ensures Sample[3] == "nvidia_drm 40960 11 - Live 0x0000000000000000 (POE)"
  {
    Line1Text();
    Line4Text();
  }

  /** The test: `parse_from` on the four lines gives the four expected records;
      the trailing comma in the third line's dependents leaves exactly five entries. */
  lemma SampleParses()
    ensures ParseFrom(Sample) == Success(Expected)
    ensures |Expected[2].usedBy| == 5
  {
    forall i | 0 <= i < |Sample| ensures Parse(Sample[i]) == Success(Expected[i]) {
      if i == 0 { Line1Parses(); }
      else if i == 1 { Line2Parses(); }
      else if i == 2 { Line3Parses(); }
      else { Line4Parses(); }
    }
    ParseFromAll(Sample, Expected);
  }
}
