/** The lazy reader: `ModuleIter` pulls one line at a time from the module
    file and parses it; `Module::all` drains it. The file is abstracted as the
    successive results its `read_line` calls produce. */
module Reader {
  import opened Wrappers
  import opened Text
  import opened Decimal
  import opened Parser

  /** The result of one `read_line` call: the bytes read (the line with its
      terminator; none at end of file), or an error from the operating system. */
  datatype ReadOutcome = Data(bytes: string) | ReadError(cause: nat)

  /** The result of opening the module file: the reads it will produce, or the open error. */
  datatype Source = Opened(stream: seq<ReadOutcome>) | OpenFailed(cause: nat)

  /** What `next` yields when it performs read number `pos`: nothing past the
      end of the stream or on a 0-byte read, the read error, or the parse of
      the line just read. */
  function StepItem(stream: seq<ReadOutcome>, pos: nat): (item: Option<Result<Module, Error>>)
    ensures item.Some? ==> pos < |stream| && Continues(stream[pos]) && item.value == ItemOf(stream[pos])
    ensures item.None? ==> pos >= |stream| || stream[pos] == Data([])
  {
    if pos >= |stream| then None
    else match stream[pos]
      case ReadError(c) => Some(Failure(Io(c)))
      case Data(bytes) => if |bytes| == 0 then None else Some(Parse(bytes))
  }

  /** Each read consumes one outcome; past the end every read returns 0 bytes. */
  function NextPos(stream: seq<ReadOutcome>, pos: nat): nat
  {
    if pos < |stream| then pos + 1 else pos
  }

  /** The items before the first `None`: one per outcome read, up to the end
      of the stream or the first 0-byte read. */
  function Items(stream: seq<ReadOutcome>, pos: nat): (r: seq<Result<Module, Error>>)
    ensures r != [] ==> pos + |r| <= |stream|
    ensures forall k :: pos <= k < pos + |r| ==> Continues(stream[k]) && r[k - pos] == ItemOf(stream[k])
    ensures pos + |r| >= |stream| || stream[pos + |r|] == Data([])
    decreases |stream| - pos
  {
    var step := StepItem(stream, pos);
    if step.None? then []
    else
      var rest := Items(stream, pos + 1);
      var r := [step.value] + rest;
      assert forall k :: pos < k < pos + |r| ==> r[k - pos] == rest[k - (pos + 1)] == ItemOf(stream[k]);
      r
  }

  /** The item a read that returned data or an error stands for. */
  function ItemOf(o: ReadOutcome): Result<Module, Error>
  {
    match o
    case Data(bytes) => Parse(bytes)
    case ReadError(c) => Failure(Io(c))
  }

  /** A read that does not end the iteration: an error, or at least one byte. */
  predicate Continues(o: ReadOutcome)
  {
    o.ReadError? || o.bytes != []
  }

  /** `ModuleIter`: the open file and the reusable line buffer. */
  class ModuleIter {
    /** The successive results of `read_line` on the open file. */
    const stream: seq<ReadOutcome>
    /** How many reads have been made so far (the reader's position). */
    var pos: nat
    /** The line buffer, reused by every step. */
    var buffer: string

    ghost predicate Valid()
      reads this
    {
      pos <= |stream|
    }

    constructor (stream: seq<ReadOutcome>)
      ensures Valid() && this.stream == stream && pos == 0 && buffer == []
    {
      this.stream := stream;
      pos := 0;
      buffer := [];
    }

    /** `BufRead::read_line`: append the next line (terminator included) to
        the buffer and return how many bytes were read, or the read error. */
    method ReadLine() returns (r: Result<nat, Error>)
      requires Valid()
      modifies this`pos, this`buffer
      ensures Valid()
      ensures pos == NextPos(stream, old(pos))
      ensures old(pos) == |stream| ==> r == Success(0) && buffer == old(buffer)
      ensures old(pos) < |stream| ==>
                match stream[old(pos)]
                case Data(bytes) => r == Success(|bytes|) && buffer == old(buffer) + bytes
                case ReadError(c) => r == Failure(Io(c)) && buffer == old(buffer)
    {
      if pos == |stream| {
        return Success(0);
      }
      match stream[pos] {
        case Data(bytes) =>
          buffer := buffer + bytes;
          r := Success(|bytes|);
        case ReadError(c) =>
          r := Failure(Io(c));
      }
      pos := pos + 1;
    }

    /** `Iterator::next`: clear the buffer, read one line, and yield `None` on
        a 0-byte read, the read error, or the parse of exactly that line.
        A parse error is yielded like any other item and does not stop the reader. */
    method Next() returns (item: Option<Result<Module, Error>>)
      requires Valid()
      modifies this`pos, this`buffer
      ensures Valid()
      ensures item == StepItem(stream, old(pos))
      ensures pos == NextPos(stream, old(pos))
      ensures buffer == if old(pos) < |stream| && stream[old(pos)].Data? then stream[old(pos)].bytes else []
    {
      buffer := [];
      var read := ReadLine();
      assert old(pos) < |stream| && stream[old(pos)].Data? ==> buffer == stream[old(pos)].bytes;
      match read
      case Success(n) =>
        if n == 0 {
          item := None;
        } else {
          item := Some(Parse(buffer));
        }
      case Failure(e) =>
        item := Some(Failure(e));
    }
  }

  /** `ModuleIter::new`: a reader at the start of the file, or the open error. */
  method Open(source: Source) returns (r: Result<ModuleIter, Error>)
    ensures source.OpenFailed? ==> r == Failure(Io(source.cause))
    ensures source.Opened? ==>
              r.Success? && fresh(r.value) && r.value.Valid() &&
              r.value.stream == source.stream && r.value.pos == 0 && r.value.buffer == []
  {
    match source
    case OpenFailed(c) =>
      r := Failure(Io(c));
    case Opened(stream) =>
      var it := new ModuleIter(stream);
      r := Success(it);
  }

  /** The first failure of `r` if it has one, else `acc` followed by its values. */
  function Prepend(acc: seq<Module>, r: Result<seq<Module>, Error>): Result<seq<Module>, Error>
  {
    match r
    case Success(ms) => Success(acc + ms)
    case Failure(e) => Failure(e)
  }

  /** `Module::all`: open the file and collect the items of a fresh reader,
      stopping at the first error of either kind. */
  method All(source: Source) returns (r: Result<seq<Module>, Error>)
    ensures source.OpenFailed? ==> r == Failure(Io(source.cause))
    ensures source.Opened? ==> r == Collect(Items(source.stream, 0))
  {
    var made := Open(source);
    if made.Failure? {
      return Failure(made.error);
    }
    var it := made.value;
    ghost var stream := source.stream;
    var acc: seq<Module> := [];
    PrependNothing(Collect(Items(stream, 0)));
    while true
      invariant it.Valid() && it.stream == stream
      invariant Collect(Items(stream, 0)) == Prepend(acc, Collect(Items(stream, it.pos)))
      decreases |stream| - it.pos
    {
      ghost var before := it.pos;
      var item := it.Next();
      match item
      case None =>
        assert acc + [] == acc;
        return Success(acc);
      case Some(Failure(e)) =>
        return Failure(e);
      case Some(Success(m)) =>
        CollectCons(m, Items(stream, it.pos));
        PrependTwice(acc, [m], Collect(Items(stream, it.pos)));
        acc := acc + [m];
    }
  }

  lemma PrependNothing(r: Result<seq<Module>, Error>)
    ensures Prepend([], r) == r
  {
    if r.Success? { assert [] + r.value == r.value; }
  }

  lemma PrependTwice(a: seq<Module>, b: seq<Module>, r: Result<seq<Module>, Error>)
    ensures Prepend(a, Prepend(b, r)) == Prepend(a + b, r)
  {
    if r.Success? { assert a + (b + r.value) == (a + b) + r.value; }
  }

  /** Collecting a successful first item puts its value in front of the rest. */
  lemma CollectCons(m: Module, rest: seq<Result<Module, Error>>)
    ensures Collect([Success(m)] + rest) == Prepend([m], Collect(rest))
  {
    assert ([Success(m)] + rest)[1..] == rest;
  }

  // ---------------------------------------------------------------------
  // What the reader yields

  /** A corollary of the contract of `Items`, by the length of the run: every
      read that returns data or an error produces one item — a parse error or a
      read error does not end the iteration — and the items stop exactly at the
      first 0-byte read or at the end of the stream. */
  lemma {:induction false} ItemsUntilEnd(stream: seq<ReadOutcome>, pos: nat, k: nat)
    requires pos <= k <= |stream|
    requires forall i :: pos <= i < k ==> Continues(stream[i])
    requires k == |stream| || stream[k] == Data([])
    ensures |Items(stream, pos)| == k - pos
    ensures forall i :: 0 <= i < k - pos ==> Items(stream, pos)[i] == ItemOf(stream[pos + i])
    decreases k - pos
  {
    if pos < k {
      ItemsUntilEnd(stream, pos + 1, k);
      assert StepItem(stream, pos) == Some(ItemOf(stream[pos]));
    }
  }

  /** The reads of a stream holding exactly `lines`, each at least one byte long. */
  function LineReads(lines: seq<string>): (r: seq<ReadOutcome>)
    ensures |r| == |lines|
  {
    seq(|lines|, i requires 0 <= i < |lines| => Data(lines[i]))
  }

  /** Over a stream of non-empty lines, `Module::all` gives what
      `Module::parse_from` gives on the same lines. */
  lemma AllAgreesWithParseFrom(lines: seq<string>)
    requires forall i :: 0 <= i < |lines| ==> lines[i] != []
    ensures Collect(Items(LineReads(lines), 0)) == ParseFrom(lines)
  {
    var stream := LineReads(lines);
    ItemsUntilEnd(stream, 0, |stream|);
    var items := Items(stream, 0);
    assert items == seq(|lines|, i requires 0 <= i < |lines| => Parse(lines[i]));
  }

  // ---------------------------------------------------------------------
  // The stream of a file, line by line

  /** How `read_line` cuts a file's text: each chunk runs up to and including
      the next newline; the final chunk may lack one. */
  function Chunks(content: string): (r: seq<string>)
    ensures forall i :: 0 <= i < |r| ==> r[i] != []
    decreases |content|
  {
    if content == [] then []
    else if content[0] == '\n' then [['\n']] + Chunks(content[1..])
    else
      var rest := Chunks(content[1..]);
      if rest == [] then [[content[0]]]
      else [[content[0]] + rest[0]] + rest[1..]
  }

  /** The chunks glued back together. */
  function Concat(parts: seq<string>): string
  {
    if parts == [] then [] else parts[0] + Concat(parts[1..])
  }

  /** A chunk has no newline before its last character. */
  predicate OneLine(chunk: string)
  {
    forall j :: 0 <= j < |chunk| - 1 ==> chunk[j] != '\n'
  }

  /** Cutting loses nothing, every chunk is one line, and every chunk but the
      last ends with its newline. */
  lemma {:induction false} ChunksMeaning(content: string)
    ensures Concat(Chunks(content)) == content
    ensures forall i :: 0 <= i < |Chunks(content)| ==> OneLine(Chunks(content)[i])
    ensures forall i :: 0 <= i < |Chunks(content)| - 1 ==>
              Chunks(content)[i][|Chunks(content)[i]| - 1] == '\n'
    decreases |content|
  {
    if content != [] {
      var rest := Chunks(content[1..]);
      ChunksMeaning(content[1..]);
      assert content == [content[0]] + content[1..];
      var r := Chunks(content);
      if content[0] == '\n' {
        assert r[1..] == rest;
        assert forall i :: 1 <= i < |r| ==> r[i] == rest[i - 1];
      } else if rest == [] {
        assert Concat(r) == [content[0]] + Concat(rest);
      } else {
        assert r[1..] == rest[1..];
        assert Concat(rest) == rest[0] + Concat(rest[1..]);
        assert forall i :: 1 <= i < |r| ==> r[i] == rest[i];
        assert r[0] == [content[0]] + rest[0];
        assert forall j :: 1 <= j < |r[0]| ==> r[0][j] == rest[0][j - 1];
      }
    }
  }

  /** Reading a file line by line yields the parse of every line, terminator
      included, and draining it gives what `parse_from` gives on those lines. */
  lemma FileItems(content: string)
    ensures var lines := Chunks(content);
            |Items(LineReads(lines), 0)| == |lines| &&
            (forall i :: 0 <= i < |lines| ==> Items(LineReads(lines), 0)[i] == Parse(lines[i])) &&
            Collect(Items(LineReads(lines), 0)) == ParseFrom(lines)
  {
    var lines := Chunks(content);
    ItemsUntilEnd(LineReads(lines), 0, |lines|);
    AllAgreesWithParseFrom(lines);
  }

  // ---------------------------------------------------------------------
  // The line terminator reaches the parser

  /** `next` hands `parse` the line with its newline. On a line of five or
      more fields the newline ends up in an ignored field, so the record is
      the one the bare line gives. */
  lemma TerminatorIgnored(fields: seq<string>)
    requires |fields| >= 5
    requires forall i :: 0 <= i < |fields| ==> ' ' !in fields[i]
    ensures Parse(Join(fields, ' ') + "\n") == Parse(Join(fields, ' '))
  {
    var n := |fields|;
    var last := fields[n - 1] + "\n";
    var other := fields[..n - 1] + [last];
    JoinAppendLast(fields, "\n", ' ');
    forall i | 0 <= i < n ensures ' ' !in other[i] {
      if i < n - 1 {
        assert other[i] == fields[i];
      } else {
        assert other[i] == last;
        assert forall j :: 0 <= j < |last| ==> last[j] != ' ' by {
          forall j | 0 <= j < |last| ensures last[j] != ' ' {
            if j < |fields[n - 1]| { assert last[j] == fields[n - 1][j]; }
          }
        }
      }
    }
    assert other[0] == fields[0] && other[1] == fields[1] && other[3] == fields[3];
    ParseIgnoresUnusedFields(fields, other);
  }

  /** On a line of exactly four fields the newline stays in the dependents
      field: a sentinel `-` then no longer reads as "no dependents". */
  lemma TerminatorInUsedBy(fields: seq<string>)
    requires |fields| == 4 && fields[3] == "-"
    requires forall i :: 0 <= i < |fields| ==> ' ' !in fields[i]
    requires IsU64Literal(fields[1])
    ensures Parse(Join(fields, ' ') + "\n") ==
              Success(Module(fields[0], Value(Unsigned(fields[1])), ["-\n"]))
  {
    var other := fields[..3] + [fields[3] + "\n"];
    JoinAppendLast(fields, "\n", ' ');
    assert other[0] == fields[0] && other[1] == fields[1] && other[3] == "-\n";
    assert forall i :: 0 <= i < 3 ==> other[i] == fields[i];
    ParseRecord(other);
    SentinelWithNewline();
  }

  lemma SentinelWithNewline()
    ensures UsedBy("-\n") == ["-\n"]
  {
    SplitWithoutSep("-\n", ',');
  }
}
