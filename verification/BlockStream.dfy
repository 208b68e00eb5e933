/** Binary block import and export of `Parity4MCIP8-parity195/parity/blockchain.rs`.

    A readahead of a regular file fills the buffer as far as bytes are left; on a pipe it may deliver fewer bytes, but
    at least one until the end of the input. */
module BlockStream {
  import opened Rlp

  const READAHEAD: nat := 8

  datatype Option<T> = None | Some(value: T)
  datatype DataFormat = Hex | Binary

  /** How an import ends. `Panicked` is the out-of-range slice `bytes[n..]`. */
  datatype Outcome = Finished | InvalidRlp(error: DecoderError) | ReadError | Panicked | Rejected | HexInput

  datatype Import = Import(delivered: seq<seq<byte>>, outcome: Outcome) {
    function After(b: seq<byte>): Import { Import([b] + delivered, outcome) }
    function AfterAll(bs: seq<seq<byte>>): Import { Import(bs + delivered, outcome) }
  }

  function Min(a: nat, b: nat): nat { if a < b then a else b }

  /** The bytes a readahead delivers when `left` bytes are left: what the environment wants, but at least one. The loop
      reads ahead at most once with the same number of bytes left. */
  function Count(left: nat, chunk: nat -> nat): (n: nat)
    ensures n <= Min(READAHEAD, left) && (n == 0 <==> left == 0)
  {
    if left > 0 && chunk(left) == 0 then 1 else Min(chunk(left), Min(READAHEAD, left))
  }

  function FromFile(): nat -> nat { (left: nat) => READAHEAD }

  /** The readahead buffer after a read of `n` bytes: they are padded with zeros. */
  function Buffer(rest: seq<byte>, n: nat): (r: seq<byte>)
    requires n <= Min(READAHEAD, |rest|)
    ensures |r| == READAHEAD
  {
    rest[..n] + Zeros(READAHEAD - n)
  }

  // ---------- what the loop does ----------

  /** The next thing one round of the loop finds in the remaining input. */
  datatype Frame = EndOfInput | Bad(outcome: Outcome) | Block(bytes: seq<byte>)

  function NextFrame(rest: seq<byte>, n: nat): (r: Frame)
    requires n <= Min(READAHEAD, |rest|) && (n == 0 <==> rest == [])
    ensures r.Block? ==> 0 < |r.bytes| <= |rest|
    ensures r.Bad? ==> r.outcome != Finished
  {
    if n == 0 then EndOfInput
    else
      match InfoFrom(Buffer(rest, n))
      case Err(e) => Bad(InvalidRlp(e))
      case Ok(info) =>
        var s := info.Total();
        if s < n then Bad(Panicked) else if |rest| < s then Bad(ReadError) else Block(rest[..s])
  }

  /** The import loop as a function of the remaining input. */
  function ImportFrom(rest: seq<byte>, chunk: nat -> nat, accepts: seq<byte> -> bool): Import
    decreases |rest|
  {
    match NextFrame(rest, Count(|rest|, chunk))
    case EndOfInput => Import([], Finished)
    case Bad(o) => Import([], o)
    case Block(b) =>
      if !accepts(b) then Import([b], Rejected) else ImportFrom(rest[|b|..], chunk, accepts).After(b)
  }

  function Detected(data: seq<byte>, format: Option<DataFormat>, chunk: nat -> nat): DataFormat {
    match format
    case Some(f) => f
    case None => if Buffer(data, Count(|data|, chunk))[0] == 0xf9 then Binary else Hex
  }

  function Imported(data: seq<byte>, format: Option<DataFormat>, chunk: nat -> nat, accepts: seq<byte> -> bool): Import
  {
    match Detected(data, format, chunk)
    case Hex => Import([], HexInput)
    case Binary => ImportFrom(data, chunk, accepts)
  }

  /** The first `n` bytes of the remaining input were read into the buffer. */
  ghost predicate ReadAhead(rest: seq<byte>, n: nat, bytes: seq<byte>, chunk: nat -> nat) {
    n == Count(|rest|, chunk) && bytes == Buffer(rest, n)
  }

  /** One round of the loop up to `do_import`: use the carried-over first bytes or read ahead, take the item size
      from them, and complete the item. `end` is the position after it. */
  method ReadFrame(data: seq<byte>, pos: nat, firstRead: nat, firstBytes: seq<byte>, chunk: nat -> nat)
    returns (frame: Frame, end: nat)
    requires firstRead <= pos <= |data|
    requires firstRead > 0 ==> ReadAhead(data[pos - firstRead..], firstRead, firstBytes, chunk)
    ensures frame == NextFrame(data[pos - firstRead..], Count(|data[pos - firstRead..]|, chunk))
    ensures frame.Block? ==> end == pos - firstRead + |frame.bytes| <= |data|
  {
    ghost var rest := data[pos - firstRead..];
    var bytes, n := firstBytes, firstRead;
    end := pos;
    if firstRead == 0 {
      n := Count(|data| - pos, chunk);
      bytes := Buffer(data[pos..], n);
      end := pos + n;
    }
    assert ReadAhead(rest, n, bytes, chunk) && end - n == pos - firstRead;
    hide Buffer, Zeros, InfoFrom, Count;
    if n == 0 {
      return EndOfInput, end;
    }
    var info := InfoFrom(bytes);
    if info.Err? {
      return Bad(InvalidRlp(info.error)), end;
    }
    var s := info.value.Total();
    if s < n {
      return Bad(Panicked), end;
    }
    if |data| - end < s - n {
      return Bad(ReadError), end;
    }
    Completed(data, end - n, n, s);
    assert rest == data[end - n..];
    hide *;
    frame := Block(bytes[..n] + data[end..end + (s - n)]);
    end := end + (s - n);
  }

  /** The bytes read ahead and the rest of the item make up the item. */
  lemma Completed(data: seq<byte>, start: nat, n: nat, s: nat)
    requires n <= s && start + s <= |data| && n <= READAHEAD
    ensures Buffer(data[start..], n)[..n] + data[start + n..start + s] == data[start..][..s]
  {
    var rest := data[start..];
    assert Buffer(rest, n)[..n] == rest[..n];
    assert data[start + n..start + s] == rest[n..s];
  }

  /** `execute_import`: format detection, then the readahead loop with its carried-over first bytes. */
  method ExecuteImport(data: seq<byte>, format: Option<DataFormat>, chunk: nat -> nat, accepts: seq<byte> -> bool)
    returns (delivered: seq<seq<byte>>, outcome: Outcome)
    ensures Import(delivered, outcome) == Imported(data, format, chunk, accepts)
  {
    hide NextFrame;
    var pos, firstRead, firstBytes := 0, 0, Zeros(READAHEAD);
    var chosen := Binary;
    assert data[0..] == data;
    match format {
      case Some(f) => chosen := f;
      case None =>
        firstRead := Count(|data|, chunk);
        firstBytes := Buffer(data, firstRead);
        pos := firstRead;
        chosen := if firstBytes[0] == 0xf9 then Binary else Hex;
    }
    if chosen == Hex {
      return [], HexInput;
    }
    delivered := [];
    while true
      invariant 0 <= firstRead <= pos <= |data|
      invariant firstRead > 0 ==> ReadAhead(data[pos - firstRead..], firstRead, firstBytes, chunk)
      invariant ImportFrom(data, chunk, accepts) ==
                ImportFrom(data[pos - firstRead..], chunk, accepts).AfterAll(delivered)
      decreases |data| - (pos - firstRead)
    {
      ghost var start := pos - firstRead;
      var frame, end := ReadFrame(data, pos, firstRead, firstBytes, chunk);
      hide ReadAhead;
      match frame {
        case EndOfInput => return delivered, Finished;
        case Bad(o) => return delivered, o;
        case Block(b) =>
          if !accepts(b) {
            return delivered + [b], Rejected;
          }
          AfterMore(ImportFrom(data[end..], chunk, accepts), b, delivered);
          assert data[start..][|b|..] == data[end..];
          delivered := delivered + [b];
          pos, firstRead := end, 0;
      }
    }
  }

  lemma AfterMore(r: Import, b: seq<byte>, delivered: seq<seq<byte>>)
    ensures r.After(b).AfterAll(delivered) == r.AfterAll(delivered + [b])
  {
  }

  // ---------- export ----------

  function Concat(blocks: seq<seq<byte>>): seq<byte> {
    if blocks == [] then [] else blocks[0] + Concat(blocks[1..])
  }

  lemma {:induction false} ConcatAppend(blocks: seq<seq<byte>>, b: seq<byte>)
    ensures Concat(blocks + [b]) == Concat(blocks) + b
  {
    if blocks == [] {
      assert (blocks + [b])[1..] == [];
    } else {
      ConcatAppend(blocks[1..], b);
      assert (blocks + [b])[1..] == blocks[1..] + [b];
    }
  }

  /** The blocks numbered `from` up to but not including `upTo`. */
  ghost function BlocksOf(chain: map<nat, seq<byte>>, from: nat, upTo: nat): (r: seq<seq<byte>>)
    requires from <= upTo && forall i: nat :: from <= i < upTo ==> i in chain
    ensures |r| == upTo - from && forall i: nat :: i < |r| ==> r[i] == chain[from + i]
  {
    if from == upTo then [] else BlocksOf(chain, from, upTo - 1) + [chain[upTo - 1]]
  }

  /** `execute_export` in binary format: write block after block, stop at the first one the chain lacks. The blocks
      below `next` were written; the command succeeds when none is missing. */
  method ExecuteExport(chain: map<nat, seq<byte>>, from: nat, to: nat) returns (out: seq<byte>, next: nat,
      complete: bool)
    ensures from <= next && forall k: nat :: from <= k < next ==> k in chain
    ensures out == Concat(BlocksOf(chain, from, next))
    ensures complete ==> next == if from <= to then to + 1 else from
    ensures !complete ==> next <= to && next !in chain
  {
    out, next := [], from;
    while next < to + 1
      invariant from <= next && (next <= to + 1 || next == from)
      invariant forall k: nat :: from <= k < next ==> k in chain
      invariant out == Concat(BlocksOf(chain, from, next))
    {
      if next !in chain {
        return out, next, false;
      }
      ConcatAppend(BlocksOf(chain, from, next), chain[next]);
      out := out + chain[next];
      next := next + 1;
    }
    complete := true;
  }

  // ---------- the round trip ----------

  ghost predicate AllEncodable(payloads: seq<seq<byte>>) {
    forall i :: 0 <= i < |payloads| ==> Encodable(|payloads[i]|)
  }

  ghost function Items(payloads: seq<seq<byte>>): (r: seq<seq<byte>>)
    requires AllEncodable(payloads)
    ensures |r| == |payloads|
  {
    if payloads == [] then [] else [ListItem(payloads[0])] + Items(payloads[1..])
  }

  /** The header bytes that a read of `n` bytes leaves out are zeros, as the padding takes them to be. */
  ghost predicate HeaderShown(payload: seq<byte>, n: nat)
    requires Encodable(|payload|)
  {
    forall j :: n <= j < |ListHeader(|payload|)| ==> ListHeader(|payload|)[j] == 0
  }

  /** A readahead of `n` bytes is right for the item: its header fits the buffer and is shown, and no byte of the next
      item is read. */
  ghost predicate Fits(payload: seq<byte>, n: nat)
    requires Encodable(|payload|)
  {
    |payload| < Pow256(7) && n <= |ListItem(payload)| && HeaderShown(payload, n)
  }

  /** The header is read as that of a smaller item. */
  ghost predicate Cuts(payload: seq<byte>, n: nat)
    requires Encodable(|payload|)
  {
    |payload| < Pow256(7) && n >= 2 && !HeaderShown(payload, n)
  }

  /** How the import ends at any other item that does not fit: only the leading byte was read, the header is longer than
      the readahead, or the item is shorter than what was read. */
  ghost function Fault(payload: seq<byte>, n: nat): Outcome {
    if |payload| > 55 && n == 1 then InvalidRlp(RlpDataLenWithZeroPrefix)
    else if |payload| >= Pow256(7) then InvalidRlp(RlpIsTooShort)
    else Panicked
  }

  ghost function Input(payloads: seq<seq<byte>>): seq<byte>
    requires AllEncodable(payloads)
  {
    Concat(Items(payloads))
  }

  /** The bytes read ahead at item `k` when the items before it were read correctly. */
  ghost function CountAt(payloads: seq<seq<byte>>, k: nat, chunk: nat -> nat): nat
    requires AllEncodable(payloads) && k < |payloads|
  {
    Count(|Input(payloads[k..])|, chunk)
  }

  ghost predicate FitsAt(payloads: seq<seq<byte>>, k: nat, chunk: nat -> nat)
    requires AllEncodable(payloads) && k < |payloads|
  {
    Fits(payloads[k], CountAt(payloads, k, chunk))
  }

  ghost predicate Readable(payloads: seq<seq<byte>>, chunk: nat -> nat)
    requires AllEncodable(payloads)
  {
    forall k :: 0 <= k < |payloads| ==> FitsAt(payloads, k, chunk)
  }

  lemma {:induction false} ShiftedCount(payloads: seq<seq<byte>>, k: nat, chunk: nat -> nat)
    requires AllEncodable(payloads) && 1 <= k < |payloads|
    ensures AllEncodable(payloads[1..]) && payloads[1..][k - 1] == payloads[k]
    ensures CountAt(payloads[1..], k - 1, chunk) == CountAt(payloads, k, chunk)
  {
    assert payloads[1..][k - 1..] == payloads[k..];
  }

  lemma {:induction false} ReadableStep(payloads: seq<seq<byte>>, chunk: nat -> nat)
    requires AllEncodable(payloads) && payloads != []
    ensures AllEncodable(payloads[1..])
    ensures Readable(payloads, chunk) <==> FitsAt(payloads, 0, chunk) && Readable(payloads[1..], chunk)
  {
    var tail := payloads[1..];
    assert AllEncodable(tail);
    hide Fits, CountAt;
    forall k | 1 <= k < |payloads| ensures FitsAt(payloads, k, chunk) <==> FitsAt(tail, k - 1, chunk) {
      ShiftedCount(payloads, k, chunk);
    }
    if Readable(payloads, chunk) {
      forall k | 0 <= k < |tail| ensures FitsAt(tail, k, chunk) {
        assert FitsAt(payloads, k + 1, chunk);
      }
    }
  }

  lemma {:induction false} InputStep(payloads: seq<seq<byte>>)
    requires AllEncodable(payloads) && payloads != []
    ensures AllEncodable(payloads[1..])
    ensures Items(payloads) == [ListItem(payloads[0])] + Items(payloads[1..])
    ensures Input(payloads) == ListItem(payloads[0]) + Input(payloads[1..])
    ensures payloads[0..] == payloads
    ensures Input(payloads)[|ListItem(payloads[0])|..] == Input(payloads[1..])
  {
    hide ListItem;
    assert AllEncodable(payloads[1..]);
    assert Items(payloads)[1..] == Items(payloads[1..]);
  }

  lemma {:induction false} InputIsEmpty(payloads: seq<seq<byte>>)
    requires AllEncodable(payloads)
    ensures Input(payloads) == [] <==> payloads == []
  {
    if payloads != [] { InputStep(payloads); }
  }

  lemma BufferShows(h: seq<byte>, more: seq<byte>, n: nat)
    requires |h| <= READAHEAD && n <= Min(READAHEAD, |h + more|)
    ensures var buf := Buffer(h + more, n);
            if n >= |h| then buf == h + buf[|h|..] else buf[..|h|] == h[..n] + Zeros(|h| - n)
  {
    var buf := Buffer(h + more, n);
    if n < |h| {
      assert forall i :: 0 <= i < |h| ==> buf[i] == if i < n then h[i] else 0;
    } else {
      assert forall i :: 0 <= i < |h| ==> buf[i] == h[i];
    }
  }

  /** The buffer over an item whose header fits shows the header or, after a short read, a truncated one. */
  lemma {:induction false} BufferOverHeader(payload: seq<byte>, tail: seq<byte>, n: nat)
    requires Encodable(|payload|) && |payload| < Pow256(7) && 1 <= n <= Min(READAHEAD, |ListItem(payload) + tail|)
    ensures var h := ListHeader(|payload|);
            var info := InfoFrom(Buffer(ListItem(payload) + tail, n));
            && (n >= |h| ==> info == Ok(PayloadInfo(|h|, |payload|)))
            && (n < |h| && n == 1 ==> info == Err(RlpDataLenWithZeroPrefix))
            && (n < |h| && n >= 2 ==>
                && info.Ok? && info.value.headerLen == |h| && info.value.valueLen <= |payload|
                && (info.value.valueLen == |payload| <==> HeaderShown(payload, n)))
  {
    var h := ListHeader(|payload|);
    var rest := ListItem(payload) + tail;
    HeaderLength(|payload|, []);
    assert ListItem(payload) == h + payload;
    hide InfoFrom, ListHeader, ListItem, Pow256, Zeros, Buffer;
    assert rest == h + (payload + tail);
    BufferShows(h, payload + tail, n);
    var buf := Buffer(rest, n);
    if n >= |h| {
      HeaderReadsBack(|payload|, buf[|h|..]);
    } else {
      TruncatedHeader(|payload|, n, buf);
    }
  }

  lemma {:induction false} BufferOverLongHeader(payload: seq<byte>, tail: seq<byte>, n: nat)
    requires Encodable(|payload|) && |payload| >= Pow256(7) && 1 <= n <= READAHEAD
    ensures |ListItem(payload) + tail| > READAHEAD
    ensures InfoFrom(Buffer(ListItem(payload) + tail, n)) ==
            Err(if n == 1 then RlpDataLenWithZeroPrefix else RlpIsTooShort)
  {
    var h := ListHeader(|payload|);
    var rest := ListItem(payload) + tail;
    SmallPowers();
    HeaderLength(|payload|, []);
    BigEndianLength(|payload|, 7);
    BigEndianLength(|payload|, 8);
    BigEndianRoundTrip(|payload|);
    var buf := Buffer(rest, n);
    assert buf[0] == rest[0] == h[0] == 0xff;
    assert n >= 2 ==> buf[1] == rest[1] == h[1] != 0;
  }

  lemma ShortHeader(payload: seq<byte>)
    requires Encodable(|payload|)
    ensures |ListHeader(|payload|)| == 1 <==> |payload| <= 55
    ensures |payload| > 55 ==> ListHeader(|payload|)[1] != 0
    ensures Pow256(7) > 55
  {
    SmallPowers();
    BigEndianRoundTrip(|payload|);
  }

  /** One item at the front of the input: it is the next block, or a proper prefix of it is, or the import ends. */
  lemma {:induction false} FrameOfItem(payload: seq<byte>, tail: seq<byte>, n: nat)
    requires Encodable(|payload|) && 1 <= n <= Min(READAHEAD, |ListItem(payload) + tail|)
    ensures var f := NextFrame(ListItem(payload) + tail, n);
            && (Fits(payload, n) ==> f == Block(ListItem(payload)))
            && (Cuts(payload, n) ==> f.Block? && f.bytes < ListItem(payload))
            && (!Fits(payload, n) && !Cuts(payload, n) ==> f == Bad(Fault(payload, n)))
  {
    var item := ListItem(payload);
    var rest := item + tail;
    ShortHeader(payload);
    assert |item| == |ListHeader(|payload|)| + |payload|;
    hide InfoFrom, ListHeader, ListItem, Pow256, Buffer;
    if |payload| < Pow256(7) {
      BufferOverHeader(payload, tail, n);
      var info := InfoFrom(Buffer(rest, n));
      if info.Ok? {
        var s := info.value.Total();
        assert s <= |item| && rest[..s] == item[..s];
        assert item[..|item|] == item;
      }
    } else {
      BufferOverLongHeader(payload, tail, n);
    }
  }

  lemma {:induction false} FirstFrame(payloads: seq<seq<byte>>, chunk: nat -> nat)
    requires AllEncodable(payloads) && payloads != []
    ensures var f := NextFrame(Input(payloads), Count(|Input(payloads)|, chunk));
            var item, n := ListItem(payloads[0]), CountAt(payloads, 0, chunk);
            && (FitsAt(payloads, 0, chunk) ==> f == Block(item))
            && (Cuts(payloads[0], n) ==> f.Block? && f.bytes < item)
            && (!FitsAt(payloads, 0, chunk) && !Cuts(payloads[0], n) ==> f == Bad(Fault(payloads[0], n)))
  {
    InputStep(payloads);
    hide NextFrame, ListItem, Fits, Cuts, Input;
    FrameOfItem(payloads[0], Input(payloads[1..]), Count(|Input(payloads)|, chunk));
  }

  /** What the import makes of the first item and what is left for the others. */
  lemma {:induction false} ImportStep(payloads: seq<seq<byte>>, chunk: nat -> nat, accepts: seq<byte> -> bool)
    requires AllEncodable(payloads) && payloads != []
    ensures AllEncodable(payloads[1..])
    ensures var r, t := ImportFrom(Input(payloads), chunk, accepts), ImportFrom(Input(payloads[1..]), chunk, accepts);
            var item, n := ListItem(payloads[0]), CountAt(payloads, 0, chunk);
            if FitsAt(payloads, 0, chunk) then r == if accepts(item) then t.After(item) else Import([item], Rejected)
            else if Cuts(payloads[0], n) then r.delivered != [] && r.delivered[0] < item
            else r == Import([], Fault(payloads[0], n))
  {
    InputStep(payloads);
    FirstFrame(payloads, chunk);
    assert FitsAt(payloads, 0, chunk) ==> !Cuts(payloads[0], CountAt(payloads, 0, chunk));
    hide NextFrame, ListItem, Input, FitsAt, Fits, Cuts, Fault, Count, CountAt, Items;
  }

  /** The first item as the list of items sees it. */
  lemma {:induction false} ItemsStep(payloads: seq<seq<byte>>)
    requires AllEncodable(payloads) && payloads != []
    ensures AllEncodable(payloads[1..])
    ensures var items, rest := Items(payloads), Items(payloads[1..]);
            && items[0] == ListItem(payloads[0]) && items[1..] == rest
            && (forall k :: 0 < k <= |items| ==> items[..k] == [items[0]] + rest[..k - 1])
            && (forall k :: 0 < k < |items| ==> items[k] == rest[k - 1])
  {
    InputStep(payloads);
  }

  /** However the reads are cut, a concatenation of lists is delivered complete, in order and to its end exactly when at
      every item the readahead fits. */
  lemma {:induction false} ImportIsExactIff(payloads: seq<seq<byte>>, chunk: nat -> nat, accepts: seq<byte> -> bool)
    requires AllEncodable(payloads) && forall b :: b in Items(payloads) ==> accepts(b)
    ensures ImportFrom(Input(payloads), chunk, accepts) == Import(Items(payloads), Finished) <==>
            Readable(payloads, chunk)
    decreases |payloads|
  {
    if payloads != [] {
      var item, tail := ListItem(payloads[0]), payloads[1..];
      ItemsStep(payloads);
      ReadableStep(payloads, chunk);
      ImportStep(payloads, chunk, accepts);
      hide ImportFrom, ListItem, Input, FitsAt, Readable, Items, Cuts, CountAt;
      assert item in Items(payloads) && forall b :: b in Items(tail) ==> b in Items(payloads);
      ImportIsExactIff(tail, chunk, accepts);
      var r, t := ImportFrom(Input(payloads), chunk, accepts), ImportFrom(Input(tail), chunk, accepts);
      assert t.After(item).delivered[1..] == t.delivered;
      assert r == Import(Items(payloads), Finished) ==> r.delivered[0] == item && r.delivered[1..] == Items(tail);
      assert [item] + Items(tail) == Items(payloads);
    }
  }

  ghost predicate FirstMisfit(payloads: seq<seq<byte>>, k: nat, chunk: nat -> nat)
    requires AllEncodable(payloads) && k < |payloads|
  {
    !FitsAt(payloads, k, chunk) && forall i :: 0 <= i < k ==> FitsAt(payloads, i, chunk)
  }

  lemma {:induction false} MisfitStep(payloads: seq<seq<byte>>, k: nat, chunk: nat -> nat)
    requires AllEncodable(payloads) && 0 < k < |payloads| && FirstMisfit(payloads, k, chunk)
    ensures FitsAt(payloads, 0, chunk)
    ensures AllEncodable(payloads[1..]) && FirstMisfit(payloads[1..], k - 1, chunk)
  {
    var tail := payloads[1..];
    ShiftedCount(payloads, k, chunk);
    forall i | 0 <= i < k - 1 ensures FitsAt(tail, i, chunk) {
      ShiftedCount(payloads, i + 1, chunk);
      hide CountAt, Fits;
      assert FitsAt(payloads, i + 1, chunk);
    }
  }

  /** Exactly the items before item `k` are delivered; then the import ends, or delivers a proper prefix of that
      item. */
  ghost predicate FailsAt(r: Import, items: seq<seq<byte>>, k: nat, cuts: bool, fault: Outcome)
    requires k < |items|
  {
    if cuts then |r.delivered| > k && r.delivered[..k] == items[..k] && r.delivered[k] < items[k]
    else r == Import(items[..k], fault)
  }

  lemma FailsLater(r: Import, items: seq<seq<byte>>, k: nat, cuts: bool, fault: Outcome)
    requires 0 < k < |items| && FailsAt(r, items[1..], k - 1, cuts, fault)
    ensures FailsAt(r.After(items[0]), items, k, cuts, fault)
  {
    var rest := items[1..];
    assert items[..k] == [items[0]] + rest[..k - 1];
    if cuts {
      assert r.After(items[0]).delivered[..k] == [items[0]] + r.delivered[..k - 1];
    }
  }

  /** An import that is not exact goes wrong at the first item that does not fit. */
  lemma {:induction false} ImportFailsAtFirstMisfit(payloads: seq<seq<byte>>, k: nat, chunk: nat -> nat,
                                                    accepts: seq<byte> -> bool)
    requires AllEncodable(payloads) && k < |payloads| && forall b :: b in Items(payloads) ==> accepts(b)
    requires FirstMisfit(payloads, k, chunk)
    ensures var n := CountAt(payloads, k, chunk);
            FailsAt(ImportFrom(Input(payloads), chunk, accepts), Items(payloads), k,
                    Cuts(payloads[k], n), Fault(payloads[k], n))
    decreases |payloads|
  {
    hide ImportFrom, ListItem, Input, FitsAt, Cuts, Fault, CountAt, Items, FailsAt;
    var tail := payloads[1..];
    ItemsStep(payloads);
    assert Items(payloads)[0] in Items(payloads);
    if k == 0 {
      MisfitAtFront(payloads, chunk, accepts);
    } else {
      MisfitStep(payloads, k, chunk);
      ImportStep(payloads, chunk, accepts);
      ShiftedCount(payloads, k, chunk);
      hide FirstMisfit;
      assert forall b :: b in Items(tail) ==> b in Items(payloads);
      ImportFailsAtFirstMisfit(tail, k - 1, chunk, accepts);
      var n := CountAt(payloads, k, chunk);
      var t := ImportFrom(Input(tail), chunk, accepts);
      FailsLater(t, Items(payloads), k, Cuts(payloads[k], n), Fault(payloads[k], n));
    }
  }

  lemma MisfitAtFront(payloads: seq<seq<byte>>, chunk: nat -> nat, accepts: seq<byte> -> bool)
    requires AllEncodable(payloads) && payloads != [] && !FitsAt(payloads, 0, chunk)
    ensures var n := CountAt(payloads, 0, chunk);
            FailsAt(ImportFrom(Input(payloads), chunk, accepts), Items(payloads), 0,
                    Cuts(payloads[0], n), Fault(payloads[0], n))
  {
    hide ImportFrom, ListItem, Input, FitsAt, Cuts, Fault, CountAt, Items;
    ItemsStep(payloads);
    ImportStep(payloads, chunk, accepts);
    assert Items(payloads)[..0] == [];
  }

  // ---------- files and pipes ----------

  /** Every header fits the readahead, and only the last block may be shorter than the readahead. */
  ghost predicate Importable(payloads: seq<seq<byte>>)
    requires AllEncodable(payloads)
  {
    forall i :: 0 <= i < |payloads| ==> ImportableAt(payloads, i)
  }

  ghost predicate ImportableAt(payloads: seq<seq<byte>>, i: nat)
    requires AllEncodable(payloads) && i < |payloads|
  {
    |payloads[i]| < Pow256(7) && (i < |payloads| - 1 ==> |ListItem(payloads[i])| >= READAHEAD)
  }

  lemma LeftAt(payloads: seq<seq<byte>>, k: nat)
    requires AllEncodable(payloads) && k < |payloads|
    ensures |Input(payloads[k..])| >= |ListItem(payloads[k])|
    ensures |Input(payloads[k..])| == |ListItem(payloads[k])| <==> k == |payloads| - 1
  {
    var rest := payloads[k..];
    InputStep(rest);
    InputIsEmpty(rest[1..]);
    hide Input, ListItem;
    assert |Input(rest)| == |ListItem(payloads[k])| + |Input(rest[1..])|;
  }

  /** A file fills the readahead, so an item fits unless it is too long or is followed within the readahead. */
  lemma FileFits(payloads: seq<seq<byte>>, k: nat)
    requires AllEncodable(payloads) && k < |payloads|
    ensures FitsAt(payloads, k, FromFile()) <==> ImportableAt(payloads, k)
    ensures !ImportableAt(payloads, k) ==> !Cuts(payloads[k], CountAt(payloads, k, FromFile()))
  {
    LeftAt(payloads, k);
    HeaderLength(|payloads[k]|, []);
    assert |ListHeader(|payloads[k]|)| <= |ListItem(payloads[k])|;
    hide Input, ListItem, ListHeader, Pow256;
  }

  lemma FileReadsSuffice(payloads: seq<seq<byte>>)
    requires AllEncodable(payloads)
    ensures Readable(payloads, FromFile()) <==> Importable(payloads)
  {
    hide FitsAt, ImportableAt;
    forall k | 0 <= k < |payloads| ensures FitsAt(payloads, k, FromFile()) <==> ImportableAt(payloads, k) {
      FileFits(payloads, k);
    }
  }

  /** Binary import from a file undoes binary export exactly for the importable lists of blocks: they are delivered
      complete and in order, and the loop stops at the end of the input; any other list is not imported completely. */
  lemma {:induction false} ImportUndoesExport(payloads: seq<seq<byte>>, accepts: seq<byte> -> bool)
    requires AllEncodable(payloads) && forall b :: b in Items(payloads) ==> accepts(b)
    ensures ImportFrom(Input(payloads), FromFile(), accepts) == Import(Items(payloads), Finished) <==>
            Importable(payloads)
  {
    hide ImportFrom, Readable, Importable, Items, Input;
    ImportIsExactIff(payloads, FromFile(), accepts);
    FileReadsSuffice(payloads);
  }

  /** From a file, any other list stops at its first offending item: exactly the items before it are delivered, and the
      outcome tells which of the two faults it was. */
  lemma {:induction false} ImportStopsAtFirstOffender(payloads: seq<seq<byte>>, k: nat, accepts: seq<byte> -> bool)
    requires AllEncodable(payloads) && k < |payloads| && forall b :: b in Items(payloads) ==> accepts(b)
    requires !ImportableAt(payloads, k) && forall i :: 0 <= i < k ==> ImportableAt(payloads, i)
    ensures ImportFrom(Input(payloads), FromFile(), accepts) ==
            Import(Items(payloads)[..k], if |payloads[k]| >= Pow256(7) then InvalidRlp(RlpIsTooShort) else Panicked)
  {
    hide ImportFrom, ImportableAt, FitsAt, Items, Input, Cuts, Pow256;
    forall i | 0 <= i <= k ensures FitsAt(payloads, i, FromFile()) <==> ImportableAt(payloads, i) {
      FileFits(payloads, i);
    }
    FileFits(payloads, k);
    assert FirstMisfit(payloads, k, FromFile());
    ImportFailsAtFirstMisfit(payloads, k, FromFile(), accepts);
    FileFault(payloads, k);
  }

  lemma FileFault(payloads: seq<seq<byte>>, k: nat)
    requires AllEncodable(payloads) && k < |payloads|
    ensures Fault(payloads[k], CountAt(payloads, k, FromFile())) ==
            if |payloads[k]| >= Pow256(7) then InvalidRlp(RlpIsTooShort) else Panicked
  {
    LeftAt(payloads, k);
    ShortHeader(payloads[k]);
    hide Input, ListHeader, Pow256;
  }

  /** A pipe is safe, however it cuts the input, only for blocks of at most 56 bytes: the readahead of one or two bytes
      falsifies the length of every longer one. */
  lemma SafeOnEveryPipeIff(payloads: seq<seq<byte>>, accepts: seq<byte> -> bool)
    requires AllEncodable(payloads) && forall b :: b in Items(payloads) ==> accepts(b)
    ensures (forall chunk: nat -> nat ::
               ImportFrom(Input(payloads), chunk, accepts) == Import(Items(payloads), Finished)) <==>
            forall i :: 0 <= i < |payloads| ==> |payloads[i]| <= 55 && (i < |payloads| - 1 ==> |payloads[i]| >= 7)
  {
    hide ImportFrom, Items, Input, FitsAt;
    var one := (left: nat) => 1;
    ImportIsExactIff(payloads, one, accepts);
    ImportIsExactIff(payloads, FromFile(), accepts);
    forall i | 0 <= i < |payloads|
      ensures FitsAt(payloads, i, one) && FitsAt(payloads, i, FromFile()) <==>
              |payloads[i]| <= 55 && (i < |payloads| - 1 ==> |payloads[i]| >= 7)
    {
      SafeItem(payloads, i, one);
    }
    if forall i :: 0 <= i < |payloads| ==> |payloads[i]| <= 55 && (i < |payloads| - 1 ==> |payloads[i]| >= 7) {
      forall chunk: nat -> nat
        ensures ImportFrom(Input(payloads), chunk, accepts) == Import(Items(payloads), Finished)
      {
        forall i | 0 <= i < |payloads| ensures FitsAt(payloads, i, chunk) {
          SafeItemAlwaysFits(payloads, i, chunk);
        }
        ImportIsExactIff(payloads, chunk, accepts);
      }
    }
  }

  lemma SafeItem(payloads: seq<seq<byte>>, i: nat, one: nat -> nat)
    requires AllEncodable(payloads) && i < |payloads| && forall left :: one(left) == 1
    ensures FitsAt(payloads, i, one) && FitsAt(payloads, i, FromFile()) <==>
            |payloads[i]| <= 55 && (i < |payloads| - 1 ==> |payloads[i]| >= 7)
  {
    ShortHeader(payloads[i]);
    FileFits(payloads, i);
    LeftAt(payloads, i);
    assert CountAt(payloads, i, one) == 1;
    hide Input, CountAt, Pow256;
  }

  lemma SafeItemAlwaysFits(payloads: seq<seq<byte>>, i: nat, chunk: nat -> nat)
    requires AllEncodable(payloads) && i < |payloads|
    requires |payloads[i]| <= 55 && (i < |payloads| - 1 ==> |payloads[i]| >= 7)
    ensures FitsAt(payloads, i, chunk)
  {
    ShortHeader(payloads[i]);
    LeftAt(payloads, i);
    hide Input, Pow256;
  }

  // ---------- any input ----------

  lemma ConcatFront(b: seq<byte>, blocks: seq<seq<byte>>)
    ensures Concat([b] + blocks) == b + Concat(blocks)
  {
    assert ([b] + blocks)[1..] == blocks;
  }

  /** One round of the loop. */
  lemma ImportRound(rest: seq<byte>, chunk: nat -> nat, accepts: seq<byte> -> bool)
    ensures var f, r := NextFrame(rest, Count(|rest|, chunk)), ImportFrom(rest, chunk, accepts);
            && (f.EndOfInput? ==> rest == [] && r == Import([], Finished))
            && (f.Bad? ==> rest != [] && f.outcome != Finished && f.outcome != Rejected && r == Import([], f.outcome))
            && (f.Block? ==>
                var b := f.bytes;
                && b != [] && b <= rest
                && r == if accepts(b) then ImportFrom(rest[|b|..], chunk, accepts).After(b) else Import([b], Rejected))
  {
    hide InfoFrom, Buffer;
  }

  /** What was delivered is a prefix of the input, all blocks but perhaps the last one were accepted, and success means
      that the whole input was delivered and accepted. */
  ghost predicate AccountsFor(r: Import, rest: seq<byte>, accepts: seq<byte> -> bool) {
    && Concat(r.delivered) <= rest
    && (r.outcome == Finished <==>
        Concat(r.delivered) == rest && forall i :: 0 <= i < |r.delivered| ==> accepts(r.delivered[i]))
    && (r.outcome == Rejected <==> r.delivered != [] && !accepts(r.delivered[|r.delivered| - 1]))
    && (forall i :: 0 <= i < |r.delivered| - 1 ==> accepts(r.delivered[i]))
    && (forall i :: 0 <= i < |r.delivered| ==> r.delivered[i] != [])
  }

  lemma AccountsLater(t: Import, rest: seq<byte>, b: seq<byte>, accepts: seq<byte> -> bool)
    requires b != [] && b <= rest && accepts(b) && AccountsFor(t, rest[|b|..], accepts)
    ensures AccountsFor(t.After(b), rest, accepts)
  {
    var d, whole := t.After(b).delivered, Concat(t.delivered);
    ConcatFront(b, t.delivered);
    hide Concat;
    assert rest == b + rest[|b|..];
    assert b + whole == rest <==> whole == rest[|b|..] by { assert (b + whole)[|b|..] == whole; }
    assert d[0] == b && d[1..] == t.delivered;
    assert forall i :: 1 <= i < |d| ==> d[i] == t.delivered[i - 1];
    assert forall i :: 0 <= i < |t.delivered| ==> t.delivered[i] == d[i + 1];
  }

  /** Whatever the input and however its reads are cut, an import accounts for its input: it succeeds exactly when all
      of it was delivered and accepted. */
  lemma {:induction false} FinishedMeansAll(rest: seq<byte>, chunk: nat -> nat, accepts: seq<byte> -> bool)
    ensures AccountsFor(ImportFrom(rest, chunk, accepts), rest, accepts)
    decreases |rest|
  {
    ImportRound(rest, chunk, accepts);
    hide ImportFrom, NextFrame, Count;
    match NextFrame(rest, Count(|rest|, chunk))
    case EndOfInput =>
    case Bad(_) =>
    case Block(b) =>
      if accepts(b) {
        hide AccountsFor;
        FinishedMeansAll(rest[|b|..], chunk, accepts);
        AccountsLater(ImportFrom(rest[|b|..], chunk, accepts), rest, b, accepts);
      } else {
        assert Concat([b]) == b;
      }
  }

  /** The bytes that were not delivered start with an unreadable header, or with an item that is shorter than what was
      read ahead, or that is longer than what is left. */
  ghost predicate Named(r: Import, rest: seq<byte>, chunk: nat -> nat) {
    && |Concat(r.delivered)| < |rest|
    && var left := rest[|Concat(r.delivered)|..];
       var n := Count(|left|, chunk);
       match InfoFrom(left[..n] + Zeros(READAHEAD - n))
       case Err(e) => r.outcome == InvalidRlp(e)
       case Ok(info) =>
         && (info.headerLen + info.valueLen < n <==> r.outcome == Panicked)
         && (|left| < info.headerLen + info.valueLen <==> r.outcome == ReadError)
  }

  lemma NamedLater(t: Import, rest: seq<byte>, b: seq<byte>, chunk: nat -> nat)
    requires b != [] && b <= rest && Named(t, rest[|b|..], chunk)
    ensures Named(t.After(b), rest, chunk)
  {
    ConcatFront(b, t.delivered);
    hide Concat, InfoFrom, Zeros, Count;
    assert rest[|b|..][|Concat(t.delivered)|..] == rest[|Concat(t.After(b).delivered)|..];
  }

  lemma NamedAtOnce(rest: seq<byte>, chunk: nat -> nat)
    requires NextFrame(rest, Count(|rest|, chunk)).Bad?
    ensures Named(Import([], NextFrame(rest, Count(|rest|, chunk)).outcome), rest, chunk)
  {
    hide InfoFrom, Zeros;
    assert rest[0..] == rest;
  }

  /** Why an import that is neither finished nor rejected ends. */
  lemma {:induction false} FailureIsNamed(rest: seq<byte>, chunk: nat -> nat, accepts: seq<byte> -> bool)
    requires var o := ImportFrom(rest, chunk, accepts).outcome; o != Finished && o != Rejected
    ensures Named(ImportFrom(rest, chunk, accepts), rest, chunk)
    decreases |rest|
  {
    ImportRound(rest, chunk, accepts);
    hide ImportFrom, NextFrame, Count, Named;
    match NextFrame(rest, Count(|rest|, chunk))
    case EndOfInput =>
    case Bad(_) => NamedAtOnce(rest, chunk);
    case Block(b) =>
      FailureIsNamed(rest[|b|..], chunk, accepts);
      NamedLater(ImportFrom(rest[|b|..], chunk, accepts), rest, b, chunk);
  }

  // ---------- files that end inside an item ----------

  lemma CutHeader(payload: seq<byte>, cut: seq<byte>)
    requires Encodable(|payload|) && |payload| < Pow256(7) && cut != [] && cut < ListItem(payload)
    ensures var n := Min(READAHEAD, |cut|);
            NextFrame(cut, n) ==
            Bad(if |payload| > 55 && |cut| == 1 then InvalidRlp(RlpDataLenWithZeroPrefix) else ReadError)
  {
    var h, n := ListHeader(|payload|), Min(READAHEAD, |cut|);
    ShortHeader(payload);
    HeaderLength(|payload|, []);
    assert ListItem(payload) == h + payload;
    hide InfoFrom, ListHeader, ListItem, Pow256, Zeros, Buffer;
    if |cut| >= |h| {
      assert cut == h + cut[|h|..];
      BufferShows(h, cut[|h|..], n);
      var buf := Buffer(cut, n);
      HeaderReadsBack(|payload|, buf[|h|..]);
    } else {
      assert cut == h[..n];
      BufferOverPart(h, n);
      TruncatedHeader(|payload|, n, Buffer(cut, n));
    }
  }

  lemma BufferOverPart(h: seq<byte>, n: nat)
    requires n < |h| <= READAHEAD
    ensures Buffer(h[..n], n)[..|h|] == h[..n] + Zeros(|h| - n)
  {
    var buf := Buffer(h[..n], n);
    assert forall i :: 0 <= i < |h| ==> buf[i] == if i < n then h[i] else 0;
  }

  lemma CutLongHeader(payload: seq<byte>, cut: seq<byte>)
    requires Encodable(|payload|) && |payload| >= Pow256(7) && cut != [] && cut < ListItem(payload)
    ensures NextFrame(cut, Min(READAHEAD, |cut|)) ==
            Bad(InvalidRlp(if |cut| == 1 then RlpDataLenWithZeroPrefix else RlpIsTooShort))
  {
    var h, n := ListHeader(|payload|), Min(READAHEAD, |cut|);
    SmallPowers();
    HeaderLength(|payload|, []);
    BigEndianLength(|payload|, 7);
    BigEndianLength(|payload|, 8);
    BigEndianRoundTrip(|payload|);
    var buf := Buffer(cut, n);
    assert buf[0] == cut[0] == h[0] == 0xff;
    assert n >= 2 ==> buf[1] == cut[1] == h[1] != 0;
    hide ListItem, ListHeader, Pow256, Buffer, BigEndian;
  }

  /** A file that ends inside an item is never imported as complete. All items before the cut are delivered, and the
      import ends with a read error, or with a header error when the cut or the item leaves the header unreadable. */
  lemma {:induction false} TruncatedImport(front: seq<seq<byte>>, payload: seq<byte>, cut: seq<byte>,
                                           accepts: seq<byte> -> bool)
    requires AllEncodable(front) && forall b :: b in Items(front) ==> accepts(b)
    requires forall i :: 0 <= i < |front| ==> |front[i]| < Pow256(7) && |ListItem(front[i])| >= READAHEAD
    requires Encodable(|payload|) && cut != [] && cut < ListItem(payload)
    ensures ImportFrom(Input(front) + cut, FromFile(), accepts) ==
            Import(Items(front),
                   if |payload| > 55 && |cut| == 1 then InvalidRlp(RlpDataLenWithZeroPrefix)
                   else if |payload| >= Pow256(7) then InvalidRlp(RlpIsTooShort)
                   else ReadError)
    decreases |front|
  {
    if front == [] {
      assert Input(front) + cut == cut && Items(front) == [];
      if |payload| < Pow256(7) { CutHeader(payload, cut); } else { ShortHeader(payload); CutLongHeader(payload, cut); }
      hide ListItem, ListHeader, Pow256, NextFrame;
    } else {
      var item, tail := ListItem(front[0]), front[1..];
      ItemsStep(front);
      assert Items(front)[0] in Items(front);
      assert forall b :: b in Items(tail) ==> b in Items(front);
      assert forall i :: 0 <= i < |tail| ==> tail[i] == front[i + 1];
      WholeItemFirst(front, cut, accepts);
      TruncatedImport(tail, payload, cut, accepts);
      hide ListItem, ListHeader, Pow256, Items, Input, ImportFrom;
      assert [item] + Items(tail) == Items(front);
    }
  }

  lemma WholeItemFirst(front: seq<seq<byte>>, more: seq<byte>, accepts: seq<byte> -> bool)
    requires AllEncodable(front) && front != []
    requires |front[0]| < Pow256(7) && |ListItem(front[0])| >= READAHEAD && accepts(ListItem(front[0]))
    ensures AllEncodable(front[1..])
    ensures ImportFrom(Input(front) + more, FromFile(), accepts) ==
            ImportFrom(Input(front[1..]) + more, FromFile(), accepts).After(ListItem(front[0]))
  {
    assert Encodable(|front[0]|);
    hide Input, Items, ListItem, ListHeader, Pow256, ImportFrom, Encodable;
    InputStep(front);
    Regroup(ListItem(front[0]), Input(front[1..]), more);
    WholeItem(front[0], Input(front[1..]) + more, accepts);
  }

  lemma Regroup(a: seq<byte>, b: seq<byte>, c: seq<byte>)
    ensures a + b + c == a + (b + c)
  {
  }

  lemma WholeItem(payload: seq<byte>, more: seq<byte>, accepts: seq<byte> -> bool)
    requires Encodable(|payload|) && |payload| < Pow256(7) && |ListItem(payload)| >= READAHEAD
    requires accepts(ListItem(payload))
    ensures ImportFrom(ListItem(payload) + more, FromFile(), accepts) ==
            ImportFrom(more, FromFile(), accepts).After(ListItem(payload))
  {
    var item := ListItem(payload);
    var rest := item + more;
    assert Fits(payload, READAHEAD) by { HeaderLength(|payload|, []); }
    assert Count(|rest|, FromFile()) == READAHEAD;
    hide ListItem, Pow256, Fits, NextFrame, Cuts, ImportFrom, Count, FromFile;
    FrameOfItem(payload, more, READAHEAD);
    ImportRound(rest, FromFile(), accepts);
    assert rest[|item|..] == more;
  }

  ghost predicate IsListItem(b: seq<byte>) {
    exists payload: seq<byte> :: Encodable(|payload|) && b == ListItem(payload)
  }

  ghost function PayloadOf(b: seq<byte>): (r: seq<byte>)
    requires IsListItem(b)
    ensures Encodable(|r|) && b == ListItem(r)
  {
    var payload: seq<byte> :| Encodable(|payload|) && b == ListItem(payload);
    payload
  }

  ghost function PayloadsOf(blocks: seq<seq<byte>>): (r: seq<seq<byte>>)
    requires forall i :: 0 <= i < |blocks| ==> IsListItem(blocks[i])
    ensures |r| == |blocks| && forall i :: 0 <= i < |r| ==> r[i] == PayloadOf(blocks[i])
  {
    seq(|blocks|, i requires 0 <= i < |blocks| => PayloadOf(blocks[i]))
  }

  lemma {:induction false} PayloadsReadBack(blocks: seq<seq<byte>>, payloads: seq<seq<byte>>)
    requires |payloads| == |blocks| && AllEncodable(payloads)
    requires forall i :: 0 <= i < |blocks| ==> blocks[i] == ListItem(payloads[i])
    ensures Items(payloads) == blocks
  {
    hide ListItem, Encodable;
    if blocks != [] {
      PayloadsReadBack(blocks[1..], payloads[1..]);
    }
  }

  /** End to end: the concatenation `ExecuteExport` writes for a list of RLP blocks imports from a file as that list
      exactly when all payloads are below 2^56 bytes and all blocks but the last have at least 8 bytes. */
  lemma {:induction false} ExportThenImport(blocks: seq<seq<byte>>, accepts: seq<byte> -> bool)
    requires forall i :: 0 <= i < |blocks| ==> IsListItem(blocks[i]) && accepts(blocks[i])
    ensures AllEncodable(PayloadsOf(blocks))
    ensures Imported(Concat(blocks), Some(Binary), FromFile(), accepts) == Import(blocks, Finished) <==>
            Importable(PayloadsOf(blocks))
  {
    hide ImportFrom, Importable, Concat, IsListItem;
    var payloads := PayloadsOf(blocks);
    PayloadsReadBack(blocks, payloads);
    ImportUndoesExport(payloads, accepts);
  }

  /** With the format left open, an exact import additionally needs a first payload of 256 to 65535 bytes. */
  lemma {:induction false} AutoDetectedImport(payloads: seq<seq<byte>>, chunk: nat -> nat, accepts: seq<byte> -> bool)
    requires AllEncodable(payloads) && payloads != [] && forall b :: b in Items(payloads) ==> accepts(b)
    ensures Imported(Input(payloads), None, chunk, accepts) == Import(Items(payloads), Finished) <==>
            256 <= |payloads[0]| < 65536 && Readable(payloads, chunk)
  {
    ImportIsExactIff(payloads, chunk, accepts);
    LeadingByte(|payloads[0]|);
    InputStep(payloads);
    var data := Input(payloads);
    assert Buffer(data, Count(|data|, chunk))[0] == data[0] == ListHeader(|payloads[0]|)[0];
    hide ImportFrom, Readable, Items, Input, ListHeader, Buffer;
  }

  /** A rejected block ends the import: the blocks up to and including it were handed over. */
  lemma {:induction false} RejectionStopsImport(payloads: seq<seq<byte>>, k: nat, chunk: nat -> nat,
                                                accepts: seq<byte> -> bool)
    requires AllEncodable(payloads) && Readable(payloads, chunk) && k < |payloads|
    requires !accepts(Items(payloads)[k]) && forall i :: 0 <= i < k ==> accepts(Items(payloads)[i])
    ensures ImportFrom(Input(payloads), chunk, accepts) == Import(Items(payloads)[..k + 1], Rejected)
    decreases |payloads|
  {
    hide ImportFrom, ListItem, FitsAt, Readable, Input, Cuts, CountAt, Items, Fault;
    var tail := payloads[1..];
    ReadableStep(payloads, chunk);
    ItemsStep(payloads);
    ImportStep(payloads, chunk, accepts);
    if k > 0 {
      assert accepts(Items(payloads)[0]);
      assert forall i :: 0 <= i < |tail| ==> Items(tail)[i] == Items(payloads)[i + 1];
      RejectionStopsImport(tail, k - 1, chunk, accepts);
    }
  }
}
