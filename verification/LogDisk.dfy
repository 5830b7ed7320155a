/**
 The mutation log's files: what a reader finds in them, what the verifier accepts, how the
 head is recovered, and the shape every run of the writer keeps them in.

 The disk is a directory of rotated segments and one live file. A file is its complete,
 newline-terminated lines and possibly some unterminated bytes after them.
 */
module LogDisk {
  import opened Options
  import opened Chain

  type Pos = n: int | 0 < n witness 1

  function Last(rs: seq<Record>): Option<Record> {
    if rs == [] then None else Some(rs[|rs| - 1])
  }

  lemma LastOfConcat(a: seq<Record>, b: seq<Record>)
    ensures Last(a + b) == if b == [] then Last(a) else Last(b)
  {
    assert b == [] ==> a + b == a;
  }

  lemma Assoc<T>(a: seq<T>, b: seq<T>, c: seq<T>)
    ensures (a + b) + c == a + (b + c)
  {}

  // ---------------------------------------------------------------- files

  /** A line as the reader sees it; `bytes` is its length. */
  datatype Line =
    | Rec(record: Record, bytes: Pos)
    | Blank(bytes: Pos)
    | Junk(bytes: Pos)

  datatype File = File(lines: seq<Line>, tail: Option<Line>)

  datatype Segment = Segment(stamp: int, file: File)

  /** `rotated` is the directory listing in name order, which is time order. */
  datatype Disk = Disk(rotated: seq<Segment>, live: Option<File>)

  const EMPTY: File := File([], None)

  function Bytes(lines: seq<Line>): (n: nat)
    ensures lines != [] ==> n > 0
  {
    if lines == [] then 0 else Bytes(lines[..|lines| - 1]) + lines[|lines| - 1].bytes
  }

  function FileBytes(f: File): nat {
    Bytes(f.lines) + if f.tail.Some? then f.tail.value.bytes else 0
  }

  /** The lines a scanner yields: an unterminated last line counts. */
  function Scan(f: File): seq<Line> {
    if f.tail.Some? then f.lines + [f.tail.value] else f.lines
  }

  function RecordsOf(lines: seq<Line>): (rs: seq<Record>)
    ensures |rs| <= |lines|
  {
    if lines == [] then []
    else
      var last := lines[|lines| - 1];
      var rest := RecordsOf(lines[..|lines| - 1]);
      if last.Rec? then rest + [last.record] else rest
  }

  /** `k` of the `bytes` bytes of a record's line reach the end of the file. */
  function Landed(f: File, r: Record, bytes: Pos, k: nat): File
    requires k <= bytes
  {
    if k == 0 then f
    else if f.tail.Some? then
      // Straight after leftover bytes: one line that parses as nothing.
      var merged := Junk(f.tail.value.bytes + k);
      if k == bytes then File(f.lines + [merged], None) else File(f.lines, Some(merged))
    else if k == bytes then File(f.lines + [Rec(r, bytes)], None)
    else File(f.lines, Some(if k == bytes - 1 then Rec(r, k) else Junk(k)))
  }

  /** Cutting a file to its first `n` bytes. */
  function Truncate(f: File, n: nat): File
    decreases |f.lines|
  {
    if FileBytes(f) <= n then f
    else if Bytes(f.lines) == n then File(f.lines, None)
    else if Bytes(f.lines) < n then File(f.lines, Some(Junk(n - Bytes(f.lines))))
    else Truncate(File(f.lines[..|f.lines| - 1], Some(f.lines[|f.lines| - 1])), n)
  }

  lemma BytesGrow(lines: seq<Line>, line: Line)
    ensures Bytes(lines + [line]) == Bytes(lines) + line.bytes
    ensures RecordsOf(lines + [line]) == if line.Rec? then RecordsOf(lines) + [line.record] else RecordsOf(lines)
  {
    assert (lines + [line])[..|lines|] == lines;
  }

  /** Rolling back to the recorded size undoes a partial, torn or complete write. */
  lemma RollbackUndoes(lines: seq<Line>, r: Record, bytes: Pos, k: nat)
    requires k <= bytes
    ensures Truncate(Landed(File(lines, None), r, bytes, k), Bytes(lines)) == File(lines, None)
  {
    if k == bytes {
      BytesGrow(lines, Rec(r, bytes));
      assert (lines + [Rec(r, bytes)])[..|lines|] == lines;
    }
  }

  lemma {:induction false} RecordsOfConcat(a: seq<Line>, b: seq<Line>)
    ensures RecordsOf(a + b) == RecordsOf(a) + RecordsOf(b)
    decreases |b|
  {
    if b == [] {
      assert a + b == a;
    } else {
      var n := |b| - 1;
      assert a + b == (a + b[..n]) + [b[n]] && b == b[..n] + [b[n]];
      RecordsOfConcat(a, b[..n]);
      BytesGrow(a + b[..n], b[n]);
      BytesGrow(b[..n], b[n]);
    }
  }

  // ---------------------------------------------------------------- the whole directory

  function ScanAll(segs: seq<Segment>): seq<Line> {
    if segs == [] then [] else ScanAll(segs[..|segs| - 1]) + Scan(segs[|segs| - 1].file)
  }

  function LiveScan(d: Disk): seq<Line> {
    if d.live.Some? then Scan(d.live.value) else []
  }

  /** Every line a reader of the whole directory meets, oldest segment first. */
  function AllLines(d: Disk): seq<Line> {
    ScanAll(d.rotated) + LiveScan(d)
  }

  function Records(d: Disk): seq<Record> {
    RecordsOf(AllLines(d))
  }

  lemma {:induction false} ScanAllConcat(a: seq<Segment>, b: seq<Segment>)
    ensures ScanAll(a + b) == ScanAll(a) + ScanAll(b)
    decreases |b|
  {
    if b == [] {
      assert a + b == a;
    } else {
      var n := |b| - 1;
      assert (a + b)[..|a + b| - 1] == a + b[..n];
      ScanAllConcat(a, b[..n]);
      Assoc(ScanAll(a), ScanAll(b[..n]), Scan(b[n].file));
    }
  }

  lemma ScanAllStep(segs: seq<Segment>, i: nat)
    requires i < |segs|
    ensures ScanAll(segs[..i + 1]) == ScanAll(segs[..i]) + Scan(segs[i].file)
  {
    assert segs[..i + 1][..i] == segs[..i];
  }

  lemma ScanAllWhole(segs: seq<Segment>)
    ensures ScanAll(segs[..|segs|]) == ScanAll(segs)
  {
    assert segs[..|segs|] == segs;
  }

  // ---------------------------------------------------------------- the verifier

  datatype Verdict =
    | Accepted
    | Unreadable(expected: nat)
    | Missing(expected: nat, found: nat)
    | Unlinked(seqNo: nat)
    | Altered(seqNo: nat)

  /** Where a walk over the lines stands; expecting 0 is "adopt whatever comes first". */
  datatype Walker = Walker(prev: string, expected: nat, verdict: Verdict)

  const START: Walker := Walker("", 0, Accepted)

  ghost predicate NoJunk(lines: seq<Line>) {
    forall i :: 0 <= i < |lines| ==> !lines[i].Junk?
  }

  /** What verification means: every line reads, and the records form one unbroken chain. */
  ghost predicate Verifies(digest: Digest, d: Disk) {
    NoJunk(AllLines(d)) && Linked(digest, Records(d))
  }

  /** One line of the walk. */
  function Walk1(digest: Digest, w: Walker, line: Line): Walker {
    if !w.verdict.Accepted? || line.Blank? then w
    else if line.Junk? then w.(verdict := Unreadable(w.expected))
    else
      var r := line.record;
      var v := if w.expected == 0 then w.(prev := r.prev, expected := r.seqNo) else w;
      if r.seqNo != v.expected then v.(verdict := Missing(v.expected, r.seqNo))
      else if r.prev != v.prev then v.(verdict := Unlinked(r.seqNo))
      else if r.digest != digest(r) then v.(verdict := Altered(r.seqNo))
      else Walker(r.digest, v.expected + 1, Accepted)
  }

  function Walk(digest: Digest, w: Walker, lines: seq<Line>): Walker {
    if lines == [] then w
    else Walk1(digest, Walk(digest, w, lines[..|lines| - 1]), lines[|lines| - 1])
  }

  lemma {:induction false} WalkConcat(digest: Digest, w: Walker, a: seq<Line>, b: seq<Line>)
    ensures Walk(digest, w, a + b) == Walk(digest, Walk(digest, w, a), b)
    decreases |b|
  {
    if b == [] {
      assert a + b == a;
    } else {
      var n := |b| - 1;
      assert (a + b)[..|a + b| - 1] == a + b[..n];
      WalkConcat(digest, w, a, b[..n]);
    }
  }

  lemma {:induction false} RejectionSticks(digest: Digest, w: Walker, lines: seq<Line>)
    requires !w.verdict.Accepted?
    ensures Walk(digest, w, lines) == w
  {
    if lines != [] { RejectionSticks(digest, w, lines[..|lines| - 1]); }
  }

  /** A walk accepts exactly the lines that read as one unbroken chain. */
  lemma {:induction false} WalkMeaning(digest: Digest, lines: seq<Line>)
    ensures var w, rs := Walk(digest, START, lines), RecordsOf(lines);
      && (w.verdict.Accepted? <==> NoJunk(lines) && Linked(digest, rs))
      && (w.verdict.Accepted? ==> w.prev == Head(rs) && w.expected == if rs == [] then 0 else rs[|rs| - 1].seqNo + 1)
  {
    if lines != [] {
      hide Linked, RecordsOf, NoJunk;
      var n := |lines| - 1;
      var front, line := lines[..n], lines[n];
      assert lines == front + [line];
      WalkMeaning(digest, front);
      BytesGrow(front, line);
      NoJunkStep(front, line);
      if line.Rec? { LinkedStep(digest, RecordsOf(front), line.record); }
    }
  }

  lemma NoJunkStep(front: seq<Line>, line: Line)
    ensures NoJunk(front + [line]) <==> NoJunk(front) && !line.Junk?
  {
    assert (front + [line])[|front|] == line;
    assert forall i :: 0 <= i < |front| ==> front[i] == (front + [line])[i];
  }

  /** A rejection names the first line that breaks the chain, and how it does. */
  ghost predicate Pinpoints(digest: Digest, lines: seq<Line>, v: Verdict) {
    exists n :: 0 <= n < |lines| && NoJunk(lines[..n]) && Linked(digest, RecordsOf(lines[..n])) &&
      Breaks(digest, RecordsOf(lines[..n]), lines[n], v)
  }

  /** What is wrong with a line after these records, and the number it is reported by. */
  ghost predicate Breaks(digest: Digest, rs: seq<Record>, line: Line, v: Verdict) {
    if line.Junk? then v == Unreadable(if rs == [] then 0 else rs[|rs| - 1].seqNo + 1)
    else
      && line.Rec?
      && var r := line.record;
        if rs != [] && r.seqNo != rs[|rs| - 1].seqNo + 1 then v == Missing(rs[|rs| - 1].seqNo + 1, r.seqNo)
        else if rs != [] && r.prev != rs[|rs| - 1].digest then v == Unlinked(r.seqNo)
        else r.digest != digest(r) && v == Altered(r.seqNo)
  }

  lemma {:induction false} RejectionPinpoints(digest: Digest, lines: seq<Line>)
    requires !Walk(digest, START, lines).verdict.Accepted?
    ensures Pinpoints(digest, lines, Walk(digest, START, lines).verdict)
  {
    hide Linked, RecordsOf, NoJunk, Breaks;
    var n := |lines| - 1;
    var front := lines[..n];
    if Walk(digest, START, front).verdict.Accepted? {
      WalkMeaning(digest, front);
      BreaksHere(digest, RecordsOf(front), Walk(digest, START, front), lines[n]);
    } else {
      RejectionPinpoints(digest, front);
      var v := Walk(digest, START, front).verdict;
      var m :| 0 <= m < n && NoJunk(front[..m]) && Linked(digest, RecordsOf(front[..m])) &&
        Breaks(digest, RecordsOf(front[..m]), front[m], v);
      assert front[..m] == lines[..m] && front[m] == lines[m];
    }
  }

  lemma BreaksHere(digest: Digest, rs: seq<Record>, w: Walker, line: Line)
    requires w.verdict.Accepted? && w.prev == Head(rs) && w.expected == if rs == [] then 0 else rs[|rs| - 1].seqNo + 1
    requires !Walk1(digest, w, line).verdict.Accepted?
    ensures Breaks(digest, rs, line, Walk1(digest, w, line).verdict)
  {
  }

  lemma LinkedStep(digest: Digest, a: seq<Record>, r: Record)
    ensures Linked(digest, a + [r]) <==>
        Linked(digest, a) && r.digest == digest(r) && (a != [] ==> Follows(a[|a| - 1], r))
  {
    var s := a + [r];
    assert s[|a|] == r;
    assert forall i :: 0 <= i < |a| ==> a[i] == s[i];
  }

  /** One segment, continuing from wherever the segments before it left off. */
  method VerifySegment(digest: Digest, w0: Walker, lines: seq<Line>) returns (w: Walker)
    requires w0.verdict.Accepted?
    ensures w == Walk(digest, w0, lines)
  {
    w := w0;
    for i := 0 to |lines|
      invariant w.verdict.Accepted? && w == Walk(digest, w0, lines[..i])
    {
      assert lines[..i + 1][..i] == lines[..i];
      w := Walk1(digest, w, lines[i]);
      if !w.verdict.Accepted? {
        assert lines == lines[..i + 1] + lines[i + 1..];
        WalkConcat(digest, w0, lines[..i + 1], lines[i + 1..]);
        RejectionSticks(digest, w, lines[i + 1..]);
        return;
      }
    }
    assert lines[..|lines|] == lines;
  }

  /** The whole log, rotations included, oldest segment first. */
  method VerifyLog(digest: Digest, d: Disk) returns (v: Verdict)
    ensures v == Walk(digest, START, AllLines(d)).verdict
    ensures v.Accepted? <==> Verifies(digest, d)
    ensures !v.Accepted? ==> Pinpoints(digest, AllLines(d), v)
  {
    VerdictMeaning(digest, d);
    hide Verifies, Pinpoints, ScanAll, Walk1;
    var w := START;
    for i := 0 to |d.rotated|
      invariant w.verdict.Accepted? && w == Walk(digest, START, ScanAll(d.rotated[..i]))
    {
      ScanAllStep(d.rotated, i);
      WalkConcat(digest, START, ScanAll(d.rotated[..i]), Scan(d.rotated[i].file));
      w := VerifySegment(digest, w, Scan(d.rotated[i].file));
      if !w.verdict.Accepted? {
        RejectedEarly(digest, d, i + 1, w);
        return w.verdict;
      }
    }
    ScanAllWhole(d.rotated);
    WalkConcat(digest, START, ScanAll(d.rotated), LiveScan(d));
    if d.live.Some? {
      w := VerifySegment(digest, w, Scan(d.live.value));
    }
    v := w.verdict;
  }

  lemma VerdictMeaning(digest: Digest, d: Disk)
    ensures var v := Walk(digest, START, AllLines(d)).verdict;
      (v.Accepted? <==> Verifies(digest, d)) && (!v.Accepted? ==> Pinpoints(digest, AllLines(d), v))
    ensures ScanAll([]) == []
  {
    WalkMeaning(digest, AllLines(d));
    if !Walk(digest, START, AllLines(d)).verdict.Accepted? { RejectionPinpoints(digest, AllLines(d)); }
  }

  lemma RejectedEarly(digest: Digest, d: Disk, k: nat, w: Walker)
    requires k <= |d.rotated| && w == Walk(digest, START, ScanAll(d.rotated[..k])) && !w.verdict.Accepted?
    ensures Walk(digest, START, AllLines(d)) == w
  {
    assert d.rotated == d.rotated[..k] + d.rotated[k..];
    ScanAllConcat(d.rotated[..k], d.rotated[k..]);
    WalkConcat(digest, START, ScanAll(d.rotated[..k]), ScanAll(d.rotated[k..]));
    RejectionSticks(digest, w, ScanAll(d.rotated[k..]));
    WalkConcat(digest, START, ScanAll(d.rotated), LiveScan(d));
    RejectionSticks(digest, w, LiveScan(d));
  }

  // ---------------------------------------------------------------- recovery

  /** Cuts a file back to the end of its last complete line that reads. */
  method TruncateTornTail(f: File) returns (repaired: File)
    ensures repaired.tail.None? && repaired.lines <= f.lines
    ensures forall i :: |repaired.lines| <= i < |f.lines| ==> f.lines[i].Junk?
    ensures repaired.lines != [] ==> !repaired.lines[|repaired.lines| - 1].Junk?
    ensures NoJunk(f.lines) ==> repaired.lines == f.lines
  {
    var keep := 0;
    for off := 0 to |f.lines|
      invariant 0 <= keep <= off
      invariant forall i :: keep <= i < off ==> f.lines[i].Junk?
      invariant keep > 0 ==> !f.lines[keep - 1].Junk?
      invariant NoJunk(f.lines) ==> keep == off
    {
      if !f.lines[off].Junk? {
        keep := off + 1;
      }
    }
    repaired := File(f.lines[..keep], None);
  }

  method LastRecordIn(lines: seq<Line>) returns (last: Option<Record>)
    ensures last == Last(RecordsOf(lines))
  {
    last := None;
    for i := 0 to |lines|
      invariant last == Last(RecordsOf(lines[..i]))
    {
      assert lines[..i + 1] == lines[..i] + [lines[i]];
      BytesGrow(lines[..i], lines[i]);
      if lines[i].Rec? {
        last := Some(lines[i].record);
      }
    }
    assert lines[..|lines|] == lines;
  }

  /** The last record on the disk, wherever it lives: the live file first, then newest first. */
  method RecoverHead(d: Disk) returns (last: Option<Record>)
    ensures last == Last(Records(d))
  {
    LastIn(ScanAll(d.rotated), LiveScan(d));
    if d.live.Some? {
      last := LastRecordIn(Scan(d.live.value));
      if last.Some? { return; }
    }
    var i := |d.rotated|;
    ScanAllWhole(d.rotated);
    while i > 0
      invariant 0 <= i <= |d.rotated|
      invariant Last(RecordsOf(ScanAll(d.rotated[..i]))) == Last(Records(d))
    {
      i := i - 1;
      ScanAllStep(d.rotated, i);
      LastIn(ScanAll(d.rotated[..i]), Scan(d.rotated[i].file));
      last := LastRecordIn(Scan(d.rotated[i].file));
      if last.Some? { return; }
    }
    last := None;
  }

  lemma LastIn(a: seq<Line>, b: seq<Line>)
    ensures Last(RecordsOf(a + b)) == if Last(RecordsOf(b)).None? then Last(RecordsOf(a)) else Last(RecordsOf(b))
  {
    RecordsOfConcat(a, b);
    LastOfConcat(RecordsOf(a), RecordsOf(b));
  }

  // ---------------------------------------------------------------- what every run keeps

  ghost predicate AllRecords(lines: seq<Line>) {
    forall i :: 0 <= i < |lines| ==> lines[i].Rec?
  }

  /** A segment that was rotated away: whole records, at least one, and nothing after them. */
  ghost predicate WholeSegment(f: File) {
    f.tail.None? && f.lines != [] && AllRecords(f.lines)
  }

  ghost predicate AllWhole(segs: seq<Segment>) {
    forall s :: s in segs ==> WholeSegment(s.file)
  }

  ghost predicate InOrder(rotated: seq<Segment>) {
    forall i, j :: 0 <= i < j < |rotated| ==> rotated[i].stamp < rotated[j].stamp
  }

  function LiveLines(d: Disk): seq<Line> {
    if d.live.Some? then d.live.value.lines else []
  }

  function LiveTail(d: Disk): Option<Line> {
    if d.live.Some? then d.live.value.tail else None
  }

  ghost predicate GoodShape(d: Disk) {
    AllWhole(d.rotated) && InOrder(d.rotated) && AllRecords(LiveLines(d))
  }

  /** The records whose every byte, newline included, is on the disk. */
  function Complete(d: Disk): seq<Record> {
    RecordsOf(ScanAll(d.rotated)) + RecordsOf(LiveLines(d))
  }

  /**
   What has happened to the log: every record that ever counted, how many of them pruning
   has removed with their whole segments, and a complete record nobody was told about.
   */
  datatype Story = Story(history: seq<Record>, dropped: nat, stray: seq<Record>)

  /** The disk holds exactly what the story says it should. */
  ghost predicate GoodDisk(digest: Digest, d: Disk, st: Story) {
    && GoodShape(d)
    && FromStart(digest, st.history + st.stray) && |st.stray| <= 1
    && (if st.history == [] then st.dropped == 0 else st.dropped < |st.history|)
    && Complete(d) == st.history[st.dropped..] + st.stray
    && (LiveTail(d).Some? ==> st.stray == [] && GoodTail(digest, st.history, LiveTail(d).value))
  }

  /** Unterminated bytes are either unreadable or the next record short of its newline. */
  ghost predicate GoodTail(digest: Digest, history: seq<Record>, tail: Line) {
    tail.Junk? || (tail.Rec? && FromStart(digest, history + [tail.record]))
  }

  /** Nothing on the disk past what the writer knows about. */
  ghost predicate Clean(d: Disk, st: Story) {
    st.stray == [] && LiveTail(d).None?
  }

  lemma {:induction false} WholeScan(segs: seq<Segment>)
    requires AllWhole(segs)
    ensures AllRecords(ScanAll(segs))
  {
    if segs != [] {
      WholeScan(segs[..|segs| - 1]);
      assert WholeSegment(segs[|segs| - 1].file);
    }
  }

  lemma {:induction false} AllRecordsCount(lines: seq<Line>)
    requires AllRecords(lines)
    ensures |RecordsOf(lines)| == |lines|
  {
    if lines != [] { AllRecordsCount(lines[..|lines| - 1]); }
  }

  lemma WholeNonEmpty(segs: seq<Segment>)
    requires segs != [] && AllWhole(segs)
    ensures RecordsOf(ScanAll(segs)) != []
  {
    WholeScan(segs);
    AllRecordsCount(ScanAll(segs));
    assert WholeSegment(segs[|segs| - 1].file);
  }

  lemma LinkedSlice(digest: Digest, rs: seq<Record>, k: nat)
    requires Linked(digest, rs) && k <= |rs|
    ensures Linked(digest, rs[k..])
  {
    var t := rs[k..];
    assert forall i :: 0 <= i < |t| ==> t[i] == rs[i + k];
    forall i, j | 0 <= i < j < |t| && j == i + 1 ensures Follows(t[i], t[j]) {
      assert Follows(rs[i + k], rs[j + k]);
    }
  }

  /** Readers of a well-shaped disk see its complete records, and its tail if that reads. */
  lemma ReadsComplete(d: Disk)
    requires GoodShape(d) && (LiveTail(d).Some? ==> LiveTail(d).value.Rec?)
    ensures NoJunk(AllLines(d))
    ensures Records(d) == if LiveTail(d).None? then Complete(d) else Complete(d) + [LiveTail(d).value.record]
  {
    WholeScan(d.rotated);
    RecordsOfConcat(ScanAll(d.rotated), LiveScan(d));
    match LiveTail(d)
    case None =>
      assert LiveScan(d) == LiveLines(d);
    case Some(tail) =>
      BytesGrow(LiveLines(d), tail);
      Assoc(RecordsOf(ScanAll(d.rotated)), RecordsOf(LiveLines(d)), [tail.record]);
  }

  /** On a good disk the verifier objects to exactly one thing: an unrepaired torn tail. */
  lemma GoodDiskVerifies(digest: Digest, d: Disk, st: Story)
    requires GoodDisk(digest, d, st)
    ensures Verifies(digest, d) <==> !(LiveTail(d).Some? && LiveTail(d).value.Junk?)
  {
    hide ScanAll, RecordsOf, AllLines, Complete, GoodShape, Linked;
    if LiveTail(d).Some? && LiveTail(d).value.Junk? {
      TailIsLast(d);
    } else {
      // A tail that is not junk is the next record short of its newline.
      var more := if LiveTail(d).Some? then [LiveTail(d).value.record] else st.stray;
      var all := st.history + more;
      assert st.stray == [] ==> st.history + st.stray == st.history;
      assert Records(d) == all[st.dropped..] by {
        ReadsComplete(d);
        assert LiveTail(d).Some? ==> Complete(d) + more == (st.history[st.dropped..] + []) + more;
      }
      LinkedSlice(digest, all, st.dropped);
      ReadsComplete(d);
    }
  }

  lemma TailIsLast(d: Disk)
    requires LiveTail(d).Some?
    ensures AllLines(d) != [] && AllLines(d)[|AllLines(d)| - 1] == LiveTail(d).value
  {
  }

  /** However much of the next record's line lands, the disk stays good. */
  lemma LandedStaysGood(digest: Digest, d: Disk, st: Story, r: Record, bytes: Pos, k: nat)
    requires GoodDisk(digest, d, st) && Clean(d, st) && d.live.Some?
    requires FromStart(digest, st.history + [r]) && k <= bytes
    ensures GoodDisk(digest, d.(live := Some(Landed(d.live.value, r, bytes, k))),
                     st.(stray := if k == bytes then [r] else []))
  {
    var d' := d.(live := Some(Landed(d.live.value, r, bytes, k)));
    assert GoodShape(d');
    assert Complete(d) == st.history[st.dropped..] + [] == st.history[st.dropped..];
    if k == bytes {
      assert Complete(d') == Complete(d) + [r] by {
        BytesGrow(LiveLines(d), Rec(r, bytes));
        Assoc(RecordsOf(ScanAll(d.rotated)), RecordsOf(LiveLines(d)), [r]);
      }
    } else {
      assert Complete(d') == Complete(d);
    }
  }

  /** A stray record may be counted from now on. */
  function Counted(st: Story): Story {
    Story(st.history + st.stray, st.dropped, [])
  }

  lemma CountedStaysGood(digest: Digest, d: Disk, st: Story)
    requires GoodDisk(digest, d, st)
    ensures GoodDisk(digest, d, Counted(st))
  {
    var all := st.history + st.stray;
    assert st.stray == [] ==> all == st.history;
    assert all + [] == all;
    assert all[st.dropped..] == st.history[st.dropped..] + st.stray;
  }

  /** Renaming a file into the listing: in name order, replacing a file of that name. */
  function Place(rotated: seq<Segment>, s: Segment): seq<Segment> {
    if rotated == [] then [s]
    else
      var n := |rotated| - 1;
      if rotated[n].stamp < s.stamp then rotated + [s]
      else if rotated[n].stamp == s.stamp then rotated[..n] + [s]
      else Place(rotated[..n], s) + [rotated[n]]
  }

  ghost predicate Newer(stamp: int, rotated: seq<Segment>) {
    forall s :: s in rotated ==> s.stamp < stamp
  }

  /** The live file renamed into the listing, and nothing or an empty file in its place. */
  function Rotated(d: Disk, stamp: int, live: Option<File>): Disk
    requires d.live.Some?
  {
    Disk(Place(d.rotated, Segment(stamp, d.live.value)), live)
  }

  lemma RotatedStaysGood(digest: Digest, d: Disk, st: Story, stamp: int, live: Option<File>)
    requires GoodDisk(digest, d, st) && Clean(d, st) && d.live.Some?
    requires LiveLines(d) != [] && Newer(stamp, d.rotated)
    requires live == None || live == Some(EMPTY)
    ensures GoodDisk(digest, Rotated(d, stamp, live), st)
    ensures Rotated(d, stamp, live).rotated == d.rotated + [Segment(stamp, d.live.value)]
  {
    hide GoodShape, Complete, FromStart;
    RotatedShape(d, stamp, live);
    RotatedRecords(d, stamp, live);
  }

  lemma RotatedShape(d: Disk, stamp: int, live: Option<File>)
    requires GoodShape(d) && d.live.Some? && LiveTail(d).None? && LiveLines(d) != [] && Newer(stamp, d.rotated)
    requires live == None || live == Some(EMPTY)
    ensures GoodShape(Rotated(d, stamp, live)) && LiveTail(Rotated(d, stamp, live)).None?
    ensures Rotated(d, stamp, live).rotated == d.rotated + [Segment(stamp, d.live.value)]
  {
  }

  lemma RotatedRecords(d: Disk, stamp: int, live: Option<File>)
    requires d.live.Some? && LiveTail(d).None? && Newer(stamp, d.rotated)
    requires live == None || live == Some(EMPTY)
    ensures Complete(Rotated(d, stamp, live)) == Complete(d)
  {
    hide RecordsOf;
    var s, d' := Segment(stamp, d.live.value), Rotated(d, stamp, live);
    assert d'.rotated == d.rotated + [s];
    ScanAllConcat(d.rotated, [s]);
    assert ScanAll([s]) == [] + Scan(s.file) == LiveLines(d);
    RecordsOfConcat(ScanAll(d.rotated), LiveLines(d));
    NoRecords();
  }

  lemma NoRecords()
    ensures RecordsOf([]) == []
  {
  }

  lemma OldestFirst(d: Disk)
    requires d.rotated != []
    ensures Complete(d) == RecordsOf(Scan(d.rotated[0].file)) + Complete(d.(rotated := d.rotated[1..]))
  {
    var first, rest := d.rotated[0], d.rotated[1..];
    assert d.rotated == [first] + rest;
    ScanAllConcat([first], rest);
    assert ScanAll([first]) == Scan(first.file);
    RecordsOfConcat(Scan(first.file), ScanAll(rest));
    Assoc(RecordsOf(Scan(first.file)), RecordsOf(ScanAll(rest)), RecordsOf(LiveLines(d)));
  }

  /** Removing the oldest of several segments drops its records and nothing else. */
  function PrunedDisk(d: Disk): Disk
    requires d.rotated != []
  {
    d.(rotated := d.rotated[1..])
  }

  function PrunedStory(d: Disk, st: Story): Story
    requires d.rotated != []
  {
    st.(dropped := st.dropped + |RecordsOf(Scan(d.rotated[0].file))|)
  }

  lemma PrunedStaysGood(digest: Digest, d: Disk, st: Story)
    requires GoodDisk(digest, d, st) && st.stray == [] && |d.rotated| > 1
    ensures GoodDisk(digest, PrunedDisk(d), PrunedStory(d, st))
  {
    var d' := PrunedDisk(d);
    var first := RecordsOf(Scan(d.rotated[0].file));
    assert GoodShape(d') && Complete(d') != [] by { PrunedShape(d); }
    assert Complete(d) == first + Complete(d') by { OldestFirst(d); }
    DropPrefix(st.history, st.dropped, first, Complete(d'));
  }

  lemma PrunedShape(d: Disk)
    requires GoodShape(d) && |d.rotated| > 1
    ensures GoodShape(PrunedDisk(d)) && Complete(PrunedDisk(d)) != []
  {
    var d' := PrunedDisk(d);
    assert forall s :: s in d'.rotated ==> s in d.rotated;
    assert InOrder(d'.rotated);
    WholeNonEmpty(d'.rotated);
  }

  lemma DropPrefix<T>(h: seq<T>, k: nat, x: seq<T>, y: seq<T>)
    requires k <= |h| && h[k..] + [] == x + y
    ensures k + |x| <= |h| && h[k + |x|..] + [] == y
  {
    assert h[k..] == x + y;
    assert h[k + |x|..] == h[k..][|x|..];
  }

  /** The live file created if it was missing. */
  function Created(d: Disk): Disk {
    d.(live := Some(if d.live.Some? then d.live.value else EMPTY))
  }

  /** The live file cut back to its complete lines. */
  function Repaired(d: Disk): Disk {
    d.(live := Some(File(LiveLines(d), None)))
  }

  /** After repair every complete record counts, and the last one found is the last there is. */
  lemma RepairedStaysGood(digest: Digest, d: Disk, st: Story)
    requires GoodDisk(digest, d, st)
    ensures GoodDisk(digest, Created(d), st) && GoodDisk(digest, Repaired(d), st)
    ensures GoodDisk(digest, Repaired(d), Counted(st)) && Clean(Repaired(d), Counted(st))
    ensures Last(Records(Repaired(d))) == Last(Counted(st).history)
  {
    var d', all := Repaired(d), st.history + st.stray;
    CountedStaysGood(digest, d', st);
    assert Complete(d') == all[st.dropped..];
    ReadsComplete(d');
  }
}
