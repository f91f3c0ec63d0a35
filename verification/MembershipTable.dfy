/** The buffered membership table: batched and direct writes are one append-only catalog. */
module MembershipTable {
  import opened Collections

  const U64_MAX := 0xffff_ffff_ffff_ffff

  const METADATA_BATCH_ITEMS := 4096
  const MEMBER_BATCH_TARGET_BYTES := 4 * 1024 * 1024
  const MEMBER_BATCH_CAPACITY := MEMBER_BATCH_TARGET_BYTES / 8

  /** One appended membership. */
  datatype Entry = Entry(candidate: nat, seed: nat, peak: nat, available: bool, members: seq<nat>)

  // ---- the unbuffered catalog ----

  /** The columns of a catalog: one value per membership, and all members in append order. */
  datatype Columns = Columns(candidates: seq<nat>, seeds: seq<nat>, peaks: seq<nat>, offsets: seq<nat>, sizes: seq<nat>,
                             availables: seq<nat>, members: seq<nat>)
  {
    /** One more membership at the end; its offset is the number of members before it. */
    function Plus(storesAvailability: bool, e: Entry): Columns {
      Columns(candidates + [e.candidate], seeds + [e.seed], peaks + [e.peak], offsets + [|members|],
        sizes + [|e.members|],
        availables + (if storesAvailability then [if e.available then 1 else 0] else []), members + e.members)
    }
  }

  ghost function Catalog(storesAvailability: bool, log: seq<Entry>): Columns {
    if log == [] then Columns([], [], [], [], [], [], [])
    else Catalog(storesAvailability, log[..|log| - 1]).Plus(storesAvailability, log[|log| - 1])
  }

  /** All members of the entries, in order. */
  ghost function Members(log: seq<Entry>): seq<nat> {
    if log == [] then [] else Members(log[..|log| - 1]) + log[|log| - 1].members
  }

  lemma MembersStep(log: seq<Entry>, e: Entry)
    ensures |Members(log + [e])| == |Members(log)| + |e.members|
  {
    assert (log + [e])[..|log|] == log;
  }

  lemma CatalogSnoc(storesAvailability: bool, log: seq<Entry>, e: Entry)
    ensures Catalog(storesAvailability, log + [e]) == Catalog(storesAvailability, log).Plus(storesAvailability, e)
  {
    assert (log + [e])[..|log|] == log;
  }

  lemma {:induction false} CatalogLengths(storesAvailability: bool, log: seq<Entry>)
    ensures var c := Catalog(storesAvailability, log);
      && |c.candidates| == |c.seeds| == |c.peaks| == |c.offsets| == |c.sizes| == |log|
      && |c.availables| == (if storesAvailability then |log| else 0) && c.members == Members(log)
  {
    if log != [] {
      CatalogLengths(storesAvailability, log[..|log| - 1]);
    }
  }

  /** Row i of the columns is the entry, and its offset and size cut its members out of the member column. */
  ghost predicate IsRow(c: Columns, storesAvailability: bool, i: nat, e: Entry, offset: nat) {
    && i < |c.candidates| && i < |c.seeds| && i < |c.peaks| && i < |c.offsets| && i < |c.sizes|
    && c.candidates[i] == e.candidate && c.seeds[i] == e.seed && c.peaks[i] == e.peak
    && c.offsets[i] == offset && c.sizes[i] == |e.members|
    && (storesAvailability ==> i < |c.availables| && c.availables[i] == if e.available then 1 else 0)
    && offset + |e.members| <= |c.members| && c.members[offset..offset + |e.members|] == e.members
  }

  lemma RowKept(c: Columns, storesAvailability: bool, i: nat, e: Entry, offset: nat, more: Entry)
    requires IsRow(c, storesAvailability, i, e, offset)
    ensures IsRow(c.Plus(storesAvailability, more), storesAvailability, i, e, offset)
  {
    PrefixSlice(c.members, more.members, offset, |e.members|);
  }

  lemma RowAdded(c: Columns, storesAvailability: bool, n: nat, e: Entry)
    requires |c.candidates| == |c.seeds| == |c.peaks| == |c.offsets| == |c.sizes| == n
    requires |c.availables| == if storesAvailability then n else 0
    ensures IsRow(c.Plus(storesAvailability, e), storesAvailability, n, e, |c.members|)
  {
  }

  /**
   * Row i of the catalog is entry i: its offset is the sum of the sizes before it, and its slice recovers its members.
   */
  lemma {:induction false} CatalogRow(storesAvailability: bool, log: seq<Entry>, i: nat)
    requires i < |log|
    ensures IsRow(Catalog(storesAvailability, log), storesAvailability, i, log[i], |Members(log[..i])|)
  {
    var n := |log| - 1;
    if i < n {
      CatalogRow(storesAvailability, log[..n], i);
      assert log[..n][..i] == log[..i];
      RowKept(Catalog(storesAvailability, log[..n]), storesAvailability, i, log[i], |Members(log[..i])|, log[n]);
    } else {
      LastRow(storesAvailability, log);
    }
  }

  lemma LastRow(storesAvailability: bool, log: seq<Entry>)
    requires log != []
    ensures var n := |log| - 1;
      IsRow(Catalog(storesAvailability, log), storesAvailability, n, log[n], |Members(log[..n])|)
  {
    var n := |log| - 1;
    CatalogLengths(storesAvailability, log[..n]);
    RowAdded(Catalog(storesAvailability, log[..n]), storesAvailability, n, log[n]);
  }

  lemma PrefixSlice(a: seq<nat>, b: seq<nat>, begin: nat, count: nat)
    requires begin + count <= |a|
    ensures (a + b)[begin..begin + count] == a[begin..begin + count]
  {
  }

  // ---- datasets ----

  /** Extend a dataset to oldCount plus the data and write the data there; a shorter dataset is filled with zeros. */
  function Appended(dataset: seq<nat>, oldCount: nat, data: seq<nat>): seq<nat> {
    if data == [] then dataset
    else (if oldCount <= |dataset| then dataset[..oldCount] else dataset + seq(oldCount - |dataset|, _ => 0)) + data
  }

  /** What was there up to the old extent stays, the gap is zero, and the data follow. */
  lemma AppendedIs(dataset: seq<nat>, oldCount: nat, data: seq<nat>)
    requires data != []
    ensures var after := Appended(dataset, oldCount, data);
      && |after| == oldCount + |data| && after[oldCount..] == data
      && forall i :: 0 <= i < oldCount ==> after[i] == if i < |dataset| then dataset[i] else 0
    ensures Appended(dataset, oldCount, []) == dataset
  {
  }

  /** One dataset of the table with its write buffer. */
  datatype Stream = Stream(dataset: seq<nat>, buffer: seq<nat>)
  {
    /** Everything ever given to the stream, written or not. */
    ghost function Whole(): seq<nat> {
      dataset + buffer
    }

    function Pushed(data: seq<nat>): Stream {
      Stream(dataset, buffer + data)
    }

    /** Write the buffer out at the given extent and clear it. */
    function Flushed(written: nat): Stream {
      Stream(Appended(dataset, written, buffer), [])
    }

    /** Write data directly at the given extent, past the buffer. */
    function Written(written: nat, data: seq<nat>): Stream {
      Stream(Appended(dataset, written, data), buffer)
    }
  }

  lemma PushedWhole(s: Stream, data: seq<nat>)
    ensures s.Pushed(data).Whole() == s.Whole() + data
  {
    assert s.dataset + (s.buffer + data) == s.dataset + s.buffer + data;
  }

  /** Flushing at the current extent loses and repeats nothing. */
  lemma FlushedWhole(s: Stream, written: nat)
    requires |s.dataset| == written
    ensures s.Flushed(written).dataset == s.Whole() == s.Flushed(written).Whole()
    ensures |s.Flushed(written).dataset| == written + |s.buffer|
  {
    assert s.dataset[..written] == s.dataset;
    assert s.dataset + [] == s.dataset;
  }

  /** With an empty buffer a direct write is the same as a buffered one. */
  lemma WrittenWhole(s: Stream, written: nat, data: seq<nat>)
    requires |s.dataset| == written && s.buffer == []
    ensures s.Written(written, data).Whole() == s.Whole() + data && s.Written(written, data).buffer == []
    ensures |s.Written(written, data).dataset| == written + |data|
  {
    assert s.dataset[..written] == s.dataset;
  }

  method IsStrictlyIncreasing(members: seq<nat>) returns (strict: bool)
    ensures strict <==> StrictlyIncreasing(members)
  {
    var i := 1;
    while i < |members|
      invariant 1 <= i && (|members| > 0 ==> i <= |members|)
      invariant |members| > 0 ==> StrictlyIncreasing(members[..i])
    {
      if members[i - 1] >= members[i] {
        return false;
      }
      i := i + 1;
    }
    assert |members| > 0 ==> members[..i] == members;
    strict := true;
  }

  datatype AppendStatus =
    | Recorded
    | AlreadyFinalized
    | CannotBeUnavailable
    | AvailabilityDisagrees
    | NotStrictlyIncreasing
    | CountOverflow
    | RowsMisaligned

  /** The datasets of a table, each with its buffer. */
  datatype Streams = Streams(candidates: Stream, seeds: Stream, peaks: Stream, offsets: Stream, sizes: Stream,
                             availables: Stream, members: Stream)
  {
    /** Everything ever given to the table, written or not. */
    ghost function Whole(): Columns {
      Columns(candidates.Whole(), seeds.Whole(), peaks.Whole(), offsets.Whole(), sizes.Whole(), availables.Whole(),
        members.Whole())
    }

    /** What has been written out. */
    function Datasets(): Columns {
      Columns(candidates.dataset, seeds.dataset, peaks.dataset, offsets.dataset, sizes.dataset, availables.dataset,
        members.dataset)
    }

    /** All columns have been written to the same extent. */
    ghost predicate Aligned(storesAvailability: bool, records: nat, memberRecords: nat) {
      && |candidates.dataset| == |seeds.dataset| == |peaks.dataset| == records
      && |offsets.dataset| == |sizes.dataset| == records
      && (storesAvailability ==> |availables.dataset| == records)
      && |members.dataset| == memberRecords
    }

    /** Nothing is left in a buffer. */
    ghost predicate Drained() {
      && candidates.buffer == [] && seeds.buffer == [] && peaks.buffer == [] && offsets.buffer == []
      && sizes.buffer == [] && availables.buffer == [] && members.buffer == []
    }

    predicate RowsAligned(storesAvailability: bool) {
      && |seeds.buffer| == |candidates.buffer| && |peaks.buffer| == |candidates.buffer|
      && |offsets.buffer| == |candidates.buffer| && |sizes.buffer| == |candidates.buffer|
      && (storesAvailability ==> |availables.buffer| == |candidates.buffer|)
    }

    function Flushed(storesAvailability: bool, records: nat, memberRecords: nat): Streams {
      Streams(candidates.Flushed(records), seeds.Flushed(records), peaks.Flushed(records), offsets.Flushed(records),
        sizes.Flushed(records), if storesAvailability then availables.Flushed(records) else availables.(buffer := []),
        members.Flushed(memberRecords))
    }

    /** One row and its members through the buffers. */
    function Buffered(storesAvailability: bool, e: Entry, offset: nat): Streams {
      Streams(candidates.Pushed([e.candidate]), seeds.Pushed([e.seed]), peaks.Pushed([e.peak]),
        offsets.Pushed([offset]),
        sizes.Pushed([|e.members|]),
        if storesAvailability then availables.Pushed([if e.available then 1 else 0]) else availables,
        members.Pushed(e.members))
    }

    /** One row and its members straight into the datasets. */
    function Direct(storesAvailability: bool, e: Entry, offset: nat, records: nat, memberRecords: nat): Streams {
      Streams(candidates.Written(records, [e.candidate]), seeds.Written(records, [e.seed]),
        peaks.Written(records, [e.peak]),
        offsets.Written(records, [offset]), sizes.Written(records, [|e.members|]),
        if storesAvailability then availables.Written(records, [if e.available then 1 else 0]) else availables,
        members.Written(memberRecords, e.members))
    }
  }

  /** Datasets and buffers together are the unbuffered catalog of the log. */
  ghost predicate Coherent(s: Streams, stores: bool, log: seq<Entry>, records: nat, memberRecords: nat) {
    s.Whole() == Catalog(stores, log) && s.Aligned(stores, records, memberRecords)
  }

  lemma CoherentRows(s: Streams, stores: bool, log: seq<Entry>, records: nat, memberRecords: nat)
    requires Coherent(s, stores, log, records, memberRecords)
    ensures s.RowsAligned(stores) && records + |s.candidates.buffer| == |log|
    ensures memberRecords + |s.members.buffer| == |Members(log)|
  {
    CatalogLengths(stores, log);
  }

  lemma FlushKeeps(s: Streams, stores: bool, log: seq<Entry>, records: nat, memberRecords: nat)
    requires Coherent(s, stores, log, records, memberRecords)
    ensures var f := s.Flushed(stores, records, memberRecords);
      Coherent(f, stores, log, |log|, |Members(log)|) && f.Drained()
  {
    CoherentRows(s, stores, log, records, memberRecords);
    CatalogLengths(stores, log);
    FlushedWhole(s.candidates, records);
    FlushedWhole(s.seeds, records);
    FlushedWhole(s.peaks, records);
    FlushedWhole(s.offsets, records);
    FlushedWhole(s.sizes, records);
    if stores {
      FlushedWhole(s.availables, records);
    }
    FlushedWhole(s.members, memberRecords);
  }

  /** The batched path appends one row to the unbuffered catalog. */
  lemma BufferedAppends(s: Streams, stores: bool, log: seq<Entry>, e: Entry, records: nat, memberRecords: nat)
    requires Coherent(s, stores, log, records, memberRecords)
    ensures Coherent(s.Buffered(stores, e, |Members(log)|), stores, log + [e], records, memberRecords)
  {
    CatalogSnoc(stores, log, e);
    CatalogLengths(stores, log);
    PushedWhole(s.candidates, [e.candidate]);
    PushedWhole(s.seeds, [e.seed]);
    PushedWhole(s.peaks, [e.peak]);
    PushedWhole(s.offsets, [|Members(log)|]);
    PushedWhole(s.sizes, [|e.members|]);
    PushedWhole(s.availables, [if e.available then 1 else 0]);
    PushedWhole(s.members, e.members);
    assert s.availables.Whole() + [] == s.availables.Whole();
  }

  /** The direct path, with drained buffers, appends the same row. */
  lemma DirectAppends(s: Streams, stores: bool, log: seq<Entry>, e: Entry, records: nat, memberRecords: nat)
    requires Coherent(s, stores, log, records, memberRecords) && s.Drained()
    ensures var d := s.Direct(stores, e, |Members(log)|, records, memberRecords);
      Coherent(d, stores, log + [e], records + 1, memberRecords + |e.members|) && d.Drained()
  {
    CatalogSnoc(stores, log, e);
    CatalogLengths(stores, log);
    WrittenWhole(s.candidates, records, [e.candidate]);
    WrittenWhole(s.seeds, records, [e.seed]);
    WrittenWhole(s.peaks, records, [e.peak]);
    WrittenWhole(s.offsets, records, [|Members(log)|]);
    WrittenWhole(s.sizes, records, [|e.members|]);
    if stores {
      WrittenWhole(s.availables, records, [if e.available then 1 else 0]);
    }
    WrittenWhole(s.members, memberRecords, e.members);
    assert s.availables.Whole() + [] == s.availables.Whole();
  }

  /** With nothing buffered the datasets are the catalog. */
  lemma DrainedDatasets(s: Streams, stores: bool, log: seq<Entry>, records: nat, memberRecords: nat)
    requires Coherent(s, stores, log, records, memberRecords) && s.Drained()
    ensures s.Datasets() == Catalog(stores, log)
  {
    EmptyBuffer(s.candidates);
    EmptyBuffer(s.seeds);
    EmptyBuffer(s.peaks);
    EmptyBuffer(s.offsets);
    EmptyBuffer(s.sizes);
    EmptyBuffer(s.availables);
    EmptyBuffer(s.members);
  }

  lemma EmptyBuffer(s: Stream)
    requires s.buffer == []
    ensures s.Whole() == s.dataset
  {
  }

  class MembershipTable {
    const storesAvailability: bool

    var streams: Streams
    var recordCount: nat
    var memberCount: nat
    var writtenRecordCount: nat
    var writtenMemberCount: nat
    var finalized: bool

    ghost var log: seq<Entry>

    ghost predicate Valid()
      reads this
    {
      && Coherent(streams, storesAvailability, log, writtenRecordCount, writtenMemberCount)
      && recordCount == |log| <= U64_MAX && memberCount == |Members(log)| <= U64_MAX
      && (finalized ==> streams.Drained())
    }

    /** The buffers never outgrow one batch: 4096 rows, and 4 MiB of members. */
    ghost predicate Bounded()
      reads this
    {
      |streams.candidates.buffer| < 4096 && |streams.members.buffer| * 8 < 0x40_0000
    }

    constructor (storesAvailability: bool)
      ensures Valid() && Bounded() && log == [] && !finalized && this.storesAvailability == storesAvailability
    {
      this.storesAvailability := storesAvailability;
      var empty := Stream([], []);
      streams := Streams(empty, empty, empty, empty, empty, empty, empty);
      recordCount, memberCount, writtenRecordCount, writtenMemberCount := 0, 0, 0, 0;
      finalized := false;
      log := [];
    }

    /** Write all buffers out; false is lost row alignment, which never occurs. */
    method Flush() returns (ok: bool)
      requires Valid()
      modifies this`streams, this`writtenRecordCount, this`writtenMemberCount
      ensures ok && Valid() && streams.Drained()
    {
      CoherentRows(streams, storesAvailability, log, writtenRecordCount, writtenMemberCount);
      if !streams.RowsAligned(storesAvailability) {
        return false;
      }
      var rows, memberRows := |streams.candidates.buffer|, |streams.members.buffer|;
      FlushKeeps(streams, storesAvailability, log, writtenRecordCount, writtenMemberCount);
      streams := streams.Flushed(storesAvailability, writtenRecordCount, writtenMemberCount);
      writtenRecordCount := writtenRecordCount + rows;
      writtenMemberCount := writtenMemberCount + memberRows;
      ok := true;
    }

    /** Why an append is refused, before anything changes. */
    ghost function Refusal(e: Entry): AppendStatus
      reads this
    {
      if finalized then AlreadyFinalized
      else if !storesAvailability && !e.available then CannotBeUnavailable
      else if e.available == (e.members == []) then AvailabilityDisagrees
      else if !StrictlyIncreasing(e.members) then NotStrictlyIncreasing
      else if recordCount == U64_MAX || memberCount > U64_MAX - |e.members| then CountOverflow
      else Recorded
    }

    /** The entry fits into the buffers without filling a batch. */
    ghost predicate HasRoom(e: Entry)
      reads this
    {
      |streams.candidates.buffer| + 1 < 4096 && (|streams.members.buffer| + |e.members|) * 8 < 0x40_0000
    }

    /** Append one membership: large payloads go straight to the datasets, small ones through the buffers. */
    method Append(e: Entry) returns (status: AppendStatus)
      requires Valid() && Bounded() && |e.members| <= U64_MAX
      modifies this
      ensures status == old(Refusal(e))
      ensures Valid() && Bounded() && finalized == old(finalized)
      ensures log == if status == Recorded then old(log) + [e] else old(log)
      ensures status != Recorded ==> streams == old(streams)
      ensures status == Recorded ==>
        if old(HasRoom(e)) then streams.Datasets() == old(streams.Datasets()) else streams.Drained()
    {
      if finalized {
        return AlreadyFinalized;
      }
      if !storesAvailability && !e.available {
        return CannotBeUnavailable;
      }
      if (!e.available && e.members != []) || (e.available && e.members == []) {
        return AvailabilityDisagrees;
      }
      var strict := IsStrictlyIncreasing(e.members);
      if !strict {
        return NotStrictlyIncreasing;
      }
      if recordCount == U64_MAX || memberCount > U64_MAX - |e.members| {
        return CountOverflow;
      }
      if |e.members| >= MEMBER_BATCH_CAPACITY && e.members != [] {
        status := AppendDirectly(e);
      } else {
        status := AppendBuffered(e);
      }
    }

    method AppendDirectly(e: Entry) returns (status: AppendStatus)
      requires Valid() && !finalized && recordCount < U64_MAX && memberCount + |e.members| <= U64_MAX
      modifies this
      ensures status == Recorded && Valid() && Bounded() && !finalized && log == old(log) + [e] && streams.Drained()
    {
      var aligned := Flush();
      if !aligned {
        return RowsMisaligned;
      }
      WriteRow(e);
      status := Recorded;
    }

    /** Write one row and its members behind the datasets. */
    method WriteRow(e: Entry)
      requires Valid() && !finalized && streams.Drained()
      requires recordCount < U64_MAX && memberCount + |e.members| <= U64_MAX
      modifies this
      ensures Valid() && Bounded() && !finalized && log == old(log) + [e] && streams.Drained()
    {
      DirectAppends(streams, storesAvailability, log, e, writtenRecordCount, writtenMemberCount);
      MembersStep(log, e);
      streams := streams.Direct(storesAvailability, e, memberCount, writtenRecordCount, writtenMemberCount);
      writtenRecordCount := writtenRecordCount + 1;
      writtenMemberCount := writtenMemberCount + |e.members|;
      recordCount := recordCount + 1;
      memberCount := memberCount + |e.members|;
      log := log + [e];
    }

    method AppendBuffered(e: Entry) returns (status: AppendStatus)
      requires Valid() && Bounded() && !finalized && recordCount < U64_MAX && memberCount + |e.members| <= U64_MAX
      modifies this
      ensures status == Recorded && Valid() && Bounded() && !finalized && log == old(log) + [e]
      ensures if old(HasRoom(e)) then streams.Datasets() == old(streams.Datasets()) else streams.Drained()
    {
      BufferRow(e);
      if |streams.candidates.buffer| >= METADATA_BATCH_ITEMS || |streams.members.buffer| >= MEMBER_BATCH_CAPACITY {
        var aligned := Flush();
        if !aligned {
          return RowsMisaligned;
        }
      }
      status := Recorded;
    }

    /** Push one row and its members into the buffers. */
    method BufferRow(e: Entry)
      requires Valid() && !finalized && recordCount < U64_MAX && memberCount + |e.members| <= U64_MAX
      modifies this
      ensures Valid() && !finalized && log == old(log) + [e] && streams.Datasets() == old(streams.Datasets())
      ensures |streams.candidates.buffer| == old(|streams.candidates.buffer|) + 1
      ensures |streams.members.buffer| == old(|streams.members.buffer|) + |e.members|
    {
      BufferedAppends(streams, storesAvailability, log, e, writtenRecordCount, writtenMemberCount);
      MembersStep(log, e);
      streams := streams.Buffered(storesAvailability, e, memberCount);
      recordCount := recordCount + 1;
      memberCount := memberCount + |e.members|;
      log := log + [e];
    }

    ghost predicate Open()
      reads this
    {
      Valid() && Bounded() && !finalized
    }

    /** Append to an open table, telling only whether the entry was recorded. */
    method Take(e: Entry) returns (recorded: bool)
      requires Open() && |e.members| <= U64_MAX
      modifies this
      ensures Open() && recorded == Acceptable(storesAvailability, old(log), e)
      ensures log == if recorded then old(log) + [e] else old(log)
    {
      var status := Append(e);
      recorded := status == Recorded;
    }

    /** Flush and close the table; false is diverged counts, which never occurs. */
    method Finalize() returns (ok: bool)
      requires Valid() && Bounded()
      modifies this
      ensures ok && Valid() && finalized && log == old(log)
      ensures streams.Datasets() == Catalog(storesAvailability, log)
      ensures recordCount == |log| && memberCount == |Members(log)|
    {
      if !finalized {
        ok := Flush();
        if !ok {
          return;
        }
        CoherentRows(streams, storesAvailability, log, writtenRecordCount, writtenMemberCount);
        if writtenRecordCount != recordCount || writtenMemberCount != memberCount {
          return false;
        }
        finalized := true;
      }
      DrainedDatasets(streams, storesAvailability, log, writtenRecordCount, writtenMemberCount);
      ok := true;
    }
  }

  // ---- any sequence of appends ----

  /** Whether a table holding the log takes the entry. */
  ghost predicate Acceptable(storesAvailability: bool, log: seq<Entry>, e: Entry) {
    && (storesAvailability || e.available)
    && (e.available <==> e.members != [])
    && StrictlyIncreasing(e.members)
    && |log| + 1 < 0x1_0000_0000_0000_0000 && |Members(log)| + |e.members| < 0x1_0000_0000_0000_0000
  }

  /** The entries an append-only list takes, one after the other. */
  ghost function Accepted(storesAvailability: bool, entries: seq<Entry>): seq<Entry> {
    if entries == [] then []
    else
      var before, e := Accepted(storesAvailability, entries[..|entries| - 1]), entries[|entries| - 1];
      if Acceptable(storesAvailability, before, e) then before + [e] else before
  }

  lemma AcceptedNext(storesAvailability: bool, entries: seq<Entry>, i: nat)
    requires i < |entries|
    ensures var before := Accepted(storesAvailability, entries[..i]);
      Accepted(storesAvailability, entries[..i + 1])
        == if Acceptable(storesAvailability, before, entries[i]) then before + [entries[i]] else before
    ensures entries[i] in entries
  {
    assert entries[..i + 1][..i] == entries[..i];
  }

  lemma AcceptedAll(storesAvailability: bool, entries: seq<Entry>)
    ensures Accepted(storesAvailability, entries[..|entries|]) == Accepted(storesAvailability, entries)
    ensures |Accepted(storesAvailability, entries)| == |entries| <==> Accepted(storesAvailability, entries) == entries
  {
    assert entries[..|entries|] == entries;
    NothingRefused(storesAvailability, entries);
  }

  /** A list as long as what was offered is what was offered. */
  lemma {:induction false} NothingRefused(storesAvailability: bool, entries: seq<Entry>)
    ensures |Accepted(storesAvailability, entries)| <= |entries|
    ensures |Accepted(storesAvailability, entries)| == |entries| ==> Accepted(storesAvailability, entries) == entries
  {
    if entries != [] {
      NothingRefused(storesAvailability, entries[..|entries| - 1]);
      assert entries == entries[..|entries| - 1] + [entries[|entries| - 1]];
    }
  }

  /** Appends of any sizes followed by finalize: the datasets are the unbuffered catalog of the acceptable entries. */
  method WriteCatalog(entries: seq<Entry>, storesAvailability: bool) returns (table: MembershipTable, accepted: bool)
    requires forall e :: e in entries ==> |e.members| <= U64_MAX
    ensures fresh(table) && table.Valid() && table.finalized
    ensures table.streams.Datasets() == Catalog(storesAvailability, Accepted(storesAvailability, entries))
    ensures accepted <==> Accepted(storesAvailability, entries) == entries
  {
    table := new MembershipTable(storesAvailability);
    accepted := true;
    for i := 0 to |entries|
      invariant fresh(table) && table.Open() && table.storesAvailability == storesAvailability
      invariant table.log == Accepted(storesAvailability, entries[..i])
      invariant |table.log| <= i && (accepted <==> |table.log| == i)
    {
      AcceptedNext(storesAvailability, entries, i);
      var taken := table.Take(entries[i]);
      accepted := accepted && taken;
    }
    AcceptedAll(storesAvailability, entries);
    var closed := table.Finalize();
    accepted := accepted && closed;
  }
}
