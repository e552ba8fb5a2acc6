/** The record parser: one `/proc/modules` line to a `Module`, and a batch of lines to a list. */
module Parser {
  import opened Wrappers
  import opened Text
  import opened Decimal

  /** The failures the library reports, all as `io::Error`: the four parse
      failures (by message) and an opaque error from the operating system. */
  datatype Error =
    | MissingName    // "module name not found"
    | MissingSize    // "size not found"
    | MissingUsedBy  // "used_by not found"
    | InvalidSize    // "module size is not a number"
    | Io(cause: nat) // an error from opening or reading the file

  /** A loaded kernel module: its name, its size in bytes and the modules using it. */
  datatype Module = Module(name: string, size: U64, usedBy: seq<string>)

  /** The pieces of a comma-separated field that are not empty, in order. */
  function NonEmpty(pieces: seq<string>): (r: seq<string>)
    ensures forall i :: 0 <= i < |r| ==> r[i] != [] && r[i] in pieces
    ensures forall p :: p in pieces && p != [] ==> p in r
    ensures (forall i :: 0 <= i < |pieces| ==> pieces[i] != []) ==> r == pieces
  {
    if pieces == [] then []
    else if pieces[0] == [] then NonEmpty(pieces[1..])
    else [pieces[0]] + NonEmpty(pieces[1..])
  }

  /** The `used_by` list of a dependents field: none for the sentinel `-`,
      otherwise the non-empty comma-separated entries. */
  function UsedBy(field: string): (r: seq<string>)
    ensures field == "-" ==> r == []
    ensures forall i :: 0 <= i < |r| ==> r[i] != [] && ',' !in r[i]
  {
    if field == "-" then [] else NonEmpty(Split(field, ','))
  }

  /** `Module::parse`: split the line on single spaces, take field 0 as the
      name and field 1 as the size, skip field 2 and take field 3 as the
      dependents. The checks run in that order, the size is converted last,
      and no record is built unless every step succeeds. */
  function Parse(line: string): (r: Result<Module, Error>)
    ensures r.Failure? ==> r.error in {MissingSize, MissingUsedBy, InvalidSize}
  {
    var fields := Split(line, ' ');
    if |fields| < 1 then Failure(MissingName)
    else if |fields| < 2 then Failure(MissingSize)
    else if |fields| < 4 then Failure(MissingUsedBy)
    else match ParseU64(fields[1])
      case None => Failure(InvalidSize)
      case Some(size) => Success(Module(fields[0], size, UsedBy(fields[3])))
  }

  /** Rust's `collect::<Result<Vec<_>, _>>()`: every value in order when all
      items succeed, otherwise the first failure. */
  function Collect<T>(items: seq<Result<T, Error>>): (r: Result<seq<T>, Error>)
    ensures r.Success? <==> forall i :: 0 <= i < |items| ==> items[i].Success?
    ensures r.Success? ==>
              |r.value| == |items| && forall i :: 0 <= i < |items| ==> r.value[i] == items[i].value
    ensures r.Failure? ==>
              exists k :: 0 <= k < |items| && items[k] == Failure(r.error) &&
                          forall i :: 0 <= i < k ==> items[i].Success?
  {
    if items == [] then Success([])
    else match items[0]
      case Failure(e) => Failure(e)
      case Success(m) =>
        var rest := Collect(items[1..]);
        match rest
        case Failure(e) =>
          assert forall i :: 1 <= i < |items| ==> items[i] == items[1..][i - 1];
          Failure(e)
        case Success(ms) => Success([m] + ms)
  }

  /** `Module::parse_from`: parse every line, failing on the first line that does not parse. */
  function ParseFrom(lines: seq<string>): (r: Result<seq<Module>, Error>)
    ensures r.Success? <==> forall i :: 0 <= i < |lines| ==> Parse(lines[i]).Success?
    ensures r.Success? ==>
              |r.value| == |lines| &&
              forall i :: 0 <= i < |lines| ==> r.value[i] == Parse(lines[i]).value
    ensures r.Failure? ==>
              exists k :: 0 <= k < |lines| && Parse(lines[k]) == Failure(r.error) &&
                          forall i :: 0 <= i < k ==> Parse(lines[i]).Success?
  {
    var items := seq(|lines|, i requires 0 <= i < |lines| => Parse(lines[i]));
    assert forall i :: 0 <= i < |lines| ==> items[i] == Parse(lines[i]);
    Collect(items)
  }

  /** When every line parses, `parse_from` returns all the records, in order. */
  lemma ParseFromAll(lines: seq<string>, records: seq<Module>)
    requires |lines| == |records|
    requires forall i :: 0 <= i < |lines| ==> Parse(lines[i]) == Success(records[i])
    ensures ParseFrom(lines) == Success(records)
  {
    var r := ParseFrom(lines);
    assert r.Success?;
    assert r.value == records;
  }

  // ---------------------------------------------------------------------
  // Parse, stated on lines built from their fields

  /** Every line is its fields joined with single spaces, so this describes
      `Parse` on every input: the outcome depends only on the number of fields,
      on fields 0, 1 and 3, and the errors come in the order size, used_by, number. */
  lemma ParseFields(fields: seq<string>)
    requires |fields| >= 1
    requires forall i :: 0 <= i < |fields| ==> ' ' !in fields[i]
    ensures Parse(Join(fields, ' ')) ==
              if |fields| == 1 then Failure(MissingSize)
              else if |fields| < 4 then Failure(MissingUsedBy)
              else if !IsU64Literal(fields[1]) then Failure(InvalidSize)
              else Success(Module(fields[0], Value(Unsigned(fields[1])), UsedBy(fields[3])))
  {
    SplitJoin(fields, ' ');
    if |fields| >= 4 { ParseU64Meaning(fields[1]); }
  }

  /** A line with a name, a well-formed size, a use count, a dependents field
      and any trailing fields parses to exactly that name, size and dependents. */
  lemma ParseRecord(fields: seq<string>)
    requires |fields| >= 4
    requires forall i :: 0 <= i < |fields| ==> ' ' !in fields[i]
    requires IsU64Literal(fields[1])
    ensures Parse(Join(fields, ' ')) ==
              Success(Module(fields[0], Value(Unsigned(fields[1])), UsedBy(fields[3])))
  {
    ParseFields(fields);
  }

  /** The use count (field 2) and every field after the dependents have no
      effect: two lines that agree on fields 0, 1 and 3 parse alike. */
  lemma ParseIgnoresUnusedFields(fields: seq<string>, other: seq<string>)
    requires |fields| >= 4 && |other| >= 4
    requires forall i :: 0 <= i < |fields| ==> ' ' !in fields[i]
    requires forall i :: 0 <= i < |other| ==> ' ' !in other[i]
    requires other[0] == fields[0] && other[1] == fields[1] && other[3] == fields[3]
    ensures Parse(Join(fields, ' ')) == Parse(Join(other, ' '))
  {
    ParseFields(fields);
    ParseFields(other);
  }

  /** With fewer than four fields the line fails for the missing dependents
      before the size is looked at, even when the size is not a number. */
  lemma ParseShortLine(fields: seq<string>)
    requires 2 <= |fields| <= 3
    requires forall i :: 0 <= i < |fields| ==> ' ' !in fields[i]
    ensures Parse(Join(fields, ' ')) == Failure(MissingUsedBy)
  {
    ParseFields(fields);
  }

  /** A line of four or more fields whose size field is not a `u64` literal fails
      with "module size is not a number", whatever the other fields hold. */
  lemma ParseBadSize(fields: seq<string>)
    requires |fields| >= 4
    requires forall i :: 0 <= i < |fields| ==> ' ' !in fields[i]
    requires !IsU64Literal(fields[1])
    ensures Parse(Join(fields, ' ')) == Failure(InvalidSize)
  {
    ParseFields(fields);
  }

  /** The name is never missing: splitting always yields a first piece; an
      empty line (or any line without a space) fails for the missing size. */
  lemma ParseNeverMissingName(line: string)
    ensures Parse(line) != Failure(MissingName)
    ensures ' ' !in line ==> Parse(line) == Failure(MissingSize)
  {
    if ' ' !in line { SplitWithoutSep(line, ' '); }
  }

  /** On success the name is the text before the line's first space. */
  lemma {:induction false} ParseName(line: string)
    requires Parse(line).Success?
    ensures var name := Parse(line).value.name;
            ' ' !in name && |name| < |line| && line[..|name|] == name && line[|name|] == ' '
  {
    var fields := Split(line, ' ');
    JoinSplit(line, ' ');
    assert Join(fields, ' ') == fields[0] + [' '] + Join(fields[1..], ' ');
  }

  // ---------------------------------------------------------------------
  // The dependents field

  /** Entries that are non-empty and comma-free, joined with commas, come back
      unchanged (unless the joined text is the sentinel itself). */
  lemma UsedByJoin(names: seq<string>)
    requires forall i :: 0 <= i < |names| ==> names[i] != [] && ',' !in names[i]
    requires names != ["-"]
    ensures UsedBy(Join(names, ',')) == names
  {
    if names == [] {
      assert Split([], ',') == [[]];
    } else {
      SplitJoin(names, ',');
    }
  }

  /** A trailing comma in a dependents field adds no entry. */
  lemma UsedByTrailingComma(field: string)
    requires field != "-"
    ensures UsedBy(field + [',']) == UsedBy(field)
  {
    SplitTrailingSep(field, ',');
    NonEmptyAppendEmpty(Split(field, ','));
  }

  lemma {:induction false} NonEmptyAppendEmpty(pieces: seq<string>)
    ensures NonEmpty(pieces + [[]]) == NonEmpty(pieces)
  {
    if pieces != [] {
      assert (pieces + [[]])[1..] == pieces[1..] + [[]];
      NonEmptyAppendEmpty(pieces[1..]);
    }
  }

  /** Dropping the empty pieces keeps the others in order and with their
      multiplicity: filtering a concatenation filters each part. */
  lemma {:induction false} NonEmptyAppend(a: seq<string>, b: seq<string>)
    ensures NonEmpty(a + b) == NonEmpty(a) + NonEmpty(b)
    decreases |a|
  {
    if a == [] {
      assert a + b == b;
    } else {
      assert (a + b)[1..] == a[1..] + b;
      NonEmptyAppend(a[1..], b);
    }
  }

  /** A doubled comma adds no entry: the empty segment between the commas is dropped. */
  lemma UsedByDoubledComma(a: string, b: string)
    ensures UsedBy(a + [','] + [','] + b) == UsedBy(a + [','] + b)
  {
    var single := a + [','] + b;
    var double := a + [','] + ([','] + b);
    assert a + [','] + [','] + b == double;
    SplitAtSep(a, [','] + b, ',');
    SplitAtSep([], b, ',');
    assert [] + [','] + b == [','] + b;
    SplitAtSep(a, b, ',');
    assert single != "-" by { assert single[|a|] == ','; }
    assert double != "-" by { assert double[|a|] == ','; }
    NonEmptyAppend(Split(a, ','), [[]] + Split(b, ','));
    NonEmptyAppend([[]], Split(b, ','));
    NonEmptyAppend(Split(a, ','), Split(b, ','));
  }

  /** A leading comma adds no entry, unless what follows it is the sentinel. */
  lemma UsedByLeadingComma(b: string)
    requires b != "-"
    ensures UsedBy([','] + b) == UsedBy(b)
  {
    SplitAtSep([], b, ',');
    assert [] + [','] + b == [','] + b;
    assert ([','] + b)[0] == ',';
    NonEmptyAppend([[]], Split(b, ','));
  }

  /** A field without empty segments (no doubled, leading or trailing comma)
      is exactly its entries joined with commas. */
  lemma UsedByRoundTrip(field: string)
    requires field != "-"
    requires forall i :: 0 <= i < |Split(field, ',')| ==> Split(field, ',')[i] != []
    ensures Join(UsedBy(field), ',') == field
  {
    JoinSplit(field, ',');
  }

  /** Entries of a field taken from a space-split line contain no space. */
  lemma UsedByNoSpace(field: string)
    requires ' ' !in field
    ensures forall i :: 0 <= i < |UsedBy(field)| ==> ' ' !in UsedBy(field)[i]
  {
    SplitAvoids(field, ',', ' ');
  }
}
