/** server/opteed.c: how a connection is cut into requests, where the parameters of a request lie in the
    shared buffer, and what is sent back. */
module Opteed {
  import opened Bytes

  datatype Kind = Input | Inout | Output | Other

  /** The message structures of optee_msg.h, which is not part of this model: their sizes, and the
      fields the server reads and writes in their bytes. */
  datatype Wire = Wire(
    headSize: nat,
    paramSize: nat,
    count: seq<byte> -> uint32,
    kind: seq<byte> -> Kind,
    size: seq<byte> -> uint64,
    ref: seq<byte> -> uint64,
    withRef: (seq<byte>, uint64) -> seq<byte>)
  {
    /** A header is not empty, and storing a parameter's address changes nothing else of it. */
    ghost predicate Lawful() {
      && headSize > 0
      && forall p, r | |p| == paramSize ::
           var q := withRef(p, r);
           |q| == paramSize && kind(q) == kind(p) && size(q) == size(p) && ref(q) == r
    }
  }

  const MAX_PARAMS := 6

  /** Such structures exist: a type byte, then size and address as two words each. */
  function ExampleWire(): Wire {
    Wire(32, 17,
         head => if |head| >= 32 then WordAt(head, 28) else 0,
         p => if p == [] then Other else if p[0] == 5 then Input else if p[0] == 6 then Output
              else if p[0] == 7 then Inout else Other,
         p => if |p| == 17 then LongAt(p, 1) else 0,
         p => if |p| == 17 then LongAt(p, 9) else 0,
         (p: seq<byte>, r: uint64) => if |p| == 17 then p[..9] + Long(r) else p)
  }

  function Long(x: uint64): (bytes: seq<byte>)
    ensures |bytes| == 8
  {
    Word(x % TWO_TO_THE_32) + Word(x / TWO_TO_THE_32)
  }

  function LongAt(bytes: seq<byte>, at: nat): uint64
    requires at + 8 <= |bytes|
  {
    WordAt(bytes, at) + TWO_TO_THE_32 * WordAt(bytes, at + 4)
  }

  lemma LawfulIsSatisfiable()
    ensures ExampleWire().Lawful()
  {
    var w := ExampleWire();
    forall p: seq<byte>, r: uint64 | |p| == 17
      ensures var q := w.withRef(p, r); |q| == 17 && w.kind(q) == w.kind(p) && w.size(q) == w.size(p) && w.ref(q) == r
    {
      var q := p[..9] + Long(r);
      assert w.withRef(p, r) == q && q[..9] == p[..9];
      assert q[9..13] == Word(r % TWO_TO_THE_32) && q[13..17] == Word(r / TWO_TO_THE_32);
      WordAtSlice(q, 9, r % TWO_TO_THE_32);
      WordAtSlice(q, 13, r / TWO_TO_THE_32);
      assert forall i | 0 <= i < 9 :: q[i] == p[i];
    }
  }

  // ----- Requests on the wire -----

  datatype Request = Request(head: seq<byte>, params: seq<seq<byte>>, data: seq<byte>)

  datatype Side = Front | Back

  function Share(w: Wire, side: Side, p: seq<byte>): nat {
    match w.kind(p)
    case Input | Inout => if side == Front then w.size(p) else 0
    case Output => if side == Back then w.size(p) else 0
    case Other => 0
  }

  /** Bytes of shared memory the parameters take at one end of the buffer. */
  function Sum(w: Wire, side: Side, params: seq<seq<byte>>): nat {
    if params == [] then 0
    else Sum(w, side, params[..|params| - 1]) + Share(w, side, params[|params| - 1])
  }

  function Total(w: Wire, params: seq<seq<byte>>): nat {
    Sum(w, Front, params) + Sum(w, Back, params)
  }

  function Concat(parts: seq<seq<byte>>): seq<byte> {
    if parts == [] then [] else Concat(parts[..|parts| - 1]) + parts[|parts| - 1]
  }

  ghost predicate Uniform(parts: seq<seq<byte>>, size: nat) {
    forall i | 0 <= i < |parts| :: |parts[i]| == size
  }

  /** `n * size` */
  function Times(n: nat, size: nat): nat {
    if n == 0 then 0 else Times(n - 1, size) + size
  }

  lemma {:induction false} TimesIsProduct(n: nat, size: nat)
    ensures Times(n, size) == n * size
  {
    if n > 0 {
      TimesIsProduct(n - 1, size);
    }
  }

  /** `n` records of `size` bytes each, from the front of `bytes`. */
  function Records(bytes: seq<byte>, n: nat, size: nat): (records: seq<seq<byte>>)
    requires |bytes| == Times(n, size)
    ensures |records| == n && Uniform(records, size)
    decreases n
  {
    if n == 0 then []
    else Records(bytes[..Times(n - 1, size)], n - 1, size) + [bytes[Times(n - 1, size)..]]
  }

  lemma {:induction false} RecordsRoundTrip(parts: seq<seq<byte>>, size: nat)
    requires Uniform(parts, size)
    ensures |Concat(parts)| == Times(|parts|, size)
    ensures Records(Concat(parts), |parts|, size) == parts
  {
    if parts != [] {
      var front, last := parts[..|parts| - 1], parts[|parts| - 1];
      RecordsRoundTrip(front, size);
      var bytes, at := Concat(front) + last, Times(|front|, size);
      assert bytes[..at] == Concat(front) && bytes[at..] == last;
      assert Records(bytes, |parts|, size) == Records(Concat(front), |front|, size) + [last];
    }
  }

  /** What a client sends: at most six parameters, and the bytes of its input parameters after them. */
  ghost predicate WellFormed(w: Wire, r: Request) {
    && |r.head| == w.headSize && w.count(r.head) == |r.params| <= MAX_PARAMS
    && Uniform(r.params, w.paramSize)
    && |r.data| == Sum(w, Front, r.params)
    && Total(w, r.params) < TWO_TO_THE_64
  }

  function Encode(r: Request): seq<byte> {
    r.head + Concat(r.params) + r.data
  }

  function EncodeAll(requests: seq<Request>): seq<byte> {
    if requests == [] then [] else Encode(requests[0]) + EncodeAll(requests[1..])
  }

  datatype Frame = Incomplete | TooLarge | Oversized | Complete(request: Request, end: nat)

  /** What the server takes off the stream at position `at`. */
  function NextFrame(w: Wire, stream: seq<byte>, at: nat): Frame {
    var params := at + w.headSize;
    if |stream| < params then Incomplete else
      var n := w.count(stream[at..params]);
      var data := params + Times(n, w.paramSize);
      if n > MAX_PARAMS then Oversized
      else if |stream| < data then Incomplete
      else
        var records := Records(stream[params..data], n, w.paramSize);
        var end := data + Sum(w, Front, records);
        if Total(w, records) >= TWO_TO_THE_64 then TooLarge
        else if |stream| < end then Incomplete
        else Complete(Request(stream[at..params], records, stream[data..end]), end)
  }

  /** The requests in a stream from position `at` on. A header that announces too many parameters is
      dropped alone: whatever follows it is read as the next header. */
  function Decode(w: Wire, stream: seq<byte>, at: nat): seq<Request>
    requires w.headSize > 0
    decreases |stream| - at
  {
    match NextFrame(w, stream, at)
    case Incomplete | TooLarge => []
    case Oversized => Decode(w, stream, at + w.headSize)
    case Complete(r, end) => [r] + Decode(w, stream, end)
  }

  lemma EncodedIsNext(w: Wire, stream: seq<byte>, at: nat, r: Request, end: nat)
    requires WellFormed(w, r) && at <= end <= |stream| && stream[at..end] == Encode(r)
    ensures NextFrame(w, stream, at) == Complete(r, end)
  {
    hide Encode, Concat, Records, Sum, Times;
    RecordsRoundTrip(r.params, w.paramSize);
    var params := at + w.headSize;
    var data := params + Times(|r.params|, w.paramSize);
    EncodedParts(w, r);
    PieceOfPiece(stream, at, end, 0, w.headSize);
    PieceOfPiece(stream, at, end, w.headSize, data - at);
    PieceOfPiece(stream, at, end, data - at, end - at);
  }

  lemma PieceOfPiece(stream: seq<byte>, at: nat, end: nat, i: nat, j: nat)
    requires at <= end <= |stream| && i <= j <= end - at
    ensures stream[at..end][i..j] == stream[at + i..at + j]
  {
    var whole := stream[at..end];
    assert forall k | 0 <= k < j - i :: whole[i..j][k] == whole[i + k] == stream[at + i + k];
  }

  lemma EncodedParts(w: Wire, r: Request)
    requires |r.head| == w.headSize && |Concat(r.params)| == Times(|r.params|, w.paramSize)
    ensures var data := w.headSize + Times(|r.params|, w.paramSize);
      && |Encode(r)| == data + |r.data|
      && Encode(r)[0..w.headSize] == r.head
      && Encode(r)[w.headSize..data] == Concat(r.params)
      && Encode(r)[data..|Encode(r)|] == r.data
  {
  }

  /** Any run of well-formed requests is decoded into exactly those requests, and decoding goes on right
      after them. */
  lemma {:induction false} DecodeEncoded(w: Wire, stream: seq<byte>, at: nat, requests: seq<Request>, end: nat)
    requires w.headSize > 0 && forall i | 0 <= i < |requests| :: WellFormed(w, requests[i])
    requires at <= end <= |stream| && stream[at..end] == EncodeAll(requests)
    ensures Decode(w, stream, at) == requests + Decode(w, stream, end)
    decreases |requests|
  {
    hide WellFormed, Encode, NextFrame;
    if requests != [] {
      var r, others := requests[0], requests[1..];
      var next := at + |Encode(r)|;
      assert stream[at..next] == stream[at..end][..|Encode(r)|] == Encode(r);
      assert stream[next..end] == stream[at..end][|Encode(r)|..] == EncodeAll(others);
      EncodedIsNext(w, stream, at, r, next);
      DecodeEncoded(w, stream, next, others, end);
      assert requests + Decode(w, stream, end) == [r] + (others + Decode(w, stream, end));
    }
  }

  /** Whatever the stream, only well-formed requests are read out of it. */
  lemma {:induction false} DecodedWellFormed(w: Wire, stream: seq<byte>, at: nat)
    requires w.headSize > 0
    ensures forall i | 0 <= i < |Decode(w, stream, at)| :: WellFormed(w, Decode(w, stream, at)[i])
    decreases |stream| - at
  {
    FrameEnds(w, stream, at);
    var next := NextFrame(w, stream, at);
    hide NextFrame, WellFormed;
    match next
    case Complete(r, end) => DecodedWellFormed(w, stream, end);
    case Oversized => DecodedWellFormed(w, stream, at + w.headSize);
    case _ =>
  }

  /** A client's requests, with or without the beginning of another one after them, are read as what they
      are exactly when every one of them is well formed. */
  lemma ReadExactly(w: Wire, requests: seq<Request>, tail: seq<byte>)
    requires 0 < w.headSize && |tail| < w.headSize
    ensures Decode(w, EncodeAll(requests) + tail, 0) == requests
       <==> forall i | 0 <= i < |requests| :: WellFormed(w, requests[i])
  {
    var stream, end := EncodeAll(requests) + tail, |EncodeAll(requests)|;
    assert Decode(w, stream, end) == [];
    DecodedWellFormed(w, stream, 0);
    hide Decode, WellFormed;
    if forall i | 0 <= i < |requests| :: WellFormed(w, requests[i]) {
      assert stream[0..end] == EncodeAll(requests);
      DecodeEncoded(w, stream, 0, requests, end);
    }
  }

  /** A header that announces more than six parameters, with the parameters after it, puts the server out
      of step: if the first bytes of the parameters read as a header without parameters, they are served
      as a request. */
  lemma OversizedMisread(w: Wire, head: seq<byte>, params: seq<byte>, tail: seq<byte>)
    requires |head| == w.headSize > 0 && w.count(head) > MAX_PARAMS
    requires |params| >= w.headSize && w.count(params[..w.headSize]) == 0
    ensures var requests := Decode(w, head + params + tail, 0);
      requests != [] && requests[0] == Request(params[..w.headSize], [], [])
  {
    var stream := head + params + tail;
    var next := w.headSize + w.headSize;
    assert stream[0..w.headSize] == head;
    assert stream[w.headSize..next] == params[..w.headSize];
    assert stream[next..next] == [];
    assert Records([], 0, w.paramSize) == [];
    assert NextFrame(w, stream, 0) == Oversized;
    assert NextFrame(w, stream, w.headSize) == Complete(Request(params[..w.headSize], [], []), next);
  }

  lemma {:induction false} ConcatZeros(n: nat, size: nat)
    ensures var parts := seq(n, _ => Zeros(size));
      |Concat(parts)| == Times(n, size) && forall i | 0 <= i < |Concat(parts)| :: Concat(parts)[i] == 0
  {
    if n > 0 {
      ConcatZeros(n - 1, size);
      var parts := seq(n, _ => Zeros(size));
      assert parts[..n - 1] == seq(n - 1, _ => Zeros(size));
    }
  }

  /** Such a request: seven empty parameters, of which the first bytes are served as a request of their
      own. */
  lemma OversizedExample()
    ensures var r := Request(Zeros(28) + Word(7), seq(7, _ => Zeros(17)), []);
      var requests := Decode(ExampleWire(), Encode(r), 0);
      requests != [] && requests[0] == Request(Zeros(32), [], []) != r
  {
    var w, head, params := ExampleWire(), Zeros(28) + Word(7), Concat(seq(7, _ => Zeros(17)));
    assert head[28..32] == Word(7);
    WordAtSlice(head, 28, 7);
    ConcatZeros(7, 17);
    TimesIsProduct(7, 17);
    assert params[..32] == Zeros(32);
    OversizedMisread(w, head, params, []);
  }

  // ----- Regions of the shared buffer -----

  /** The end of the buffer a parameter lies at, if it has shared memory. */
  predicate At(w: Wire, side: Side, p: seq<byte>) {
    match w.kind(p)
    case Input | Inout => side == Front
    case Output => side == Back
    case Other => false
  }

  /** Where parameter `i` lies when the two ends of a buffer of `length` bytes are filled: inputs from the
      front in order, outputs from the back. */
  function RegionStart(w: Wire, params: seq<seq<byte>>, i: nat, length: int): int
    requires i < |params|
  {
    if At(w, Back, params[i]) then length - Sum(w, Back, params[..i + 1]) else Sum(w, Front, params[..i])
  }

  ghost predicate InRegion(w: Wire, params: seq<seq<byte>>, i: int, x: int) {
    && 0 <= i < |params| && w.kind(params[i]) != Other
    && 0 <= x - RegionStart(w, params, i, Total(w, params)) < w.size(params[i])
  }

  lemma {:induction false} SumStep(w: Wire, side: Side, params: seq<seq<byte>>, i: nat)
    requires i < |params|
    ensures Sum(w, side, params[..i + 1]) == Sum(w, side, params[..i]) + Share(w, side, params[i])
    ensures Sum(w, side, params[..|params|]) == Sum(w, side, params)
  {
    assert params[..i + 1][..i] == params[..i];
    assert params[..|params|] == params;
  }

  lemma {:induction false} SumMonotone(w: Wire, side: Side, params: seq<seq<byte>>, i: nat, j: nat)
    requires i <= j <= |params|
    ensures Sum(w, side, params[..i]) <= Sum(w, side, params[..j])
    decreases j - i
  {
    if i < j {
      SumStep(w, side, params, j - 1);
      SumMonotone(w, side, params, i, j - 1);
    }
  }

  /** A region lies inside the buffer. */
  lemma RegionBounds(w: Wire, params: seq<seq<byte>>, i: nat)
    requires i < |params| && w.kind(params[i]) != Other
    ensures var start := RegionStart(w, params, i, Total(w, params));
      && 0 <= start <= start + w.size(params[i]) <= Total(w, params)
      && (At(w, Front, params[i]) ==> start + w.size(params[i]) <= Sum(w, Front, params))
      && (At(w, Back, params[i]) ==> start >= Sum(w, Front, params))
  {
    var side := if At(w, Back, params[i]) then Back else Front;
    SumStep(w, side, params, i);
    SumMonotone(w, side, params, i + 1, |params|);
  }

  /** No byte of the buffer belongs to two parameters. */
  lemma RegionsDisjoint(w: Wire, params: seq<seq<byte>>, i: nat, j: nat, x: int)
    requires InRegion(w, params, i, x) && InRegion(w, params, j, x)
    ensures i == j
  {
    RegionBounds(w, params, i);
    RegionBounds(w, params, j);
    if i < j {
      OrderedApart(w, params, i, j, x);
    } else if j < i {
      OrderedApart(w, params, j, i, x);
    }
  }

  lemma OrderedApart(w: Wire, params: seq<seq<byte>>, i: nat, j: nat, x: int)
    requires i < j && InRegion(w, params, i, x) && InRegion(w, params, j, x)
    ensures At(w, Back, params[i]) != At(w, Back, params[j])
  {
    var side := if At(w, Back, params[i]) then Back else Front;
    SumStep(w, side, params, i);
    SumStep(w, side, params, j);
    SumMonotone(w, side, params, i + 1, j);
  }

  /** The parameter whose share of one end covers distance `x` from that end. */
  lemma {:induction false} SumFinds(w: Wire, side: Side, params: seq<seq<byte>>, x: nat) returns (i: nat)
    requires x < Sum(w, side, params)
    ensures i < |params| && Sum(w, side, params[..i]) <= x < Sum(w, side, params[..i + 1])
    ensures At(w, side, params[i]) && Sum(w, side, params[..i + 1]) == Sum(w, side, params[..i]) + w.size(params[i])
  {
    var n := |params| - 1;
    SumStep(w, side, params, n);
    if x < Sum(w, side, params[..n]) {
      i := SumFinds(w, side, params[..n], x);
      assert params[..n][..i] == params[..i] && params[..n][..i + 1] == params[..i + 1];
    } else {
      i := n;
    }
  }

  /** The regions tile the buffer: a byte belongs to a parameter exactly when it lies in the buffer. */
  lemma RegionsTile(w: Wire, params: seq<seq<byte>>, x: int)
    ensures 0 <= x < Total(w, params) <==> exists i :: InRegion(w, params, i, x)
  {
    var total := Total(w, params);
    if i :| InRegion(w, params, i, x) {
      RegionBounds(w, params, i);
    }
    if 0 <= x < Sum(w, Front, params) {
      var i := SumFinds(w, Front, params, x);
      assert InRegion(w, params, i, x);
    } else if Sum(w, Front, params) <= x < total {
      var i := SumFinds(w, Back, params, total - 1 - x);
      assert InRegion(w, params, i, x);
    }
  }

  /** What the server adds up is the total modulo 2^64. With that total, every region still lies inside
      the buffer exactly when nothing was lost. */
  lemma RegionsFitExactly(w: Wire, params: seq<seq<byte>>)
    ensures var length := Wrap(Total(w, params));
      (forall i | 0 <= i < |params| && w.kind(params[i]) != Other ::
         0 <= RegionStart(w, params, i, length) <= length - w.size(params[i]))
      <==> Total(w, params) < TWO_TO_THE_64
  {
    var total := Total(w, params);
    var length := Wrap(total);
    if total < TWO_TO_THE_64 {
      forall i | 0 <= i < |params| && w.kind(params[i]) != Other
        ensures 0 <= RegionStart(w, params, i, length) <= length - w.size(params[i])
      {
        RegionBounds(w, params, i);
      }
    } else {
      if Sum(w, Front, params) > length {
        var i := SumFinds(w, Front, params, Sum(w, Front, params) - 1);
        SumMonotone(w, Front, params, i + 1, |params|);
        SumStep(w, Front, params, i);
        assert RegionStart(w, params, i, length) > length - w.size(params[i]);
      } else {
        var i := SumFinds(w, Back, params, Sum(w, Back, params) - 1);
        SumMonotone(w, Back, params, i + 1, |params|);
        SumStep(w, Back, params, i);
        assert RegionStart(w, params, i, length) < 0;
      }
    }
  }

  /** What the client sends for each parameter: nothing for an output or a value. */
  ghost predicate Sent(w: Wire, params: seq<seq<byte>>, contents: seq<seq<byte>>) {
    |contents| == |params| && forall i | 0 <= i < |params| :: |contents[i]| == Share(w, Front, params[i])
  }

  /** The input bytes of a request, received as one piece at the front of the buffer, put in each input
      parameter's region exactly the bytes sent for it. */
  lemma {:induction false} RegionHoldsContents(w: Wire, params: seq<seq<byte>>, contents: seq<seq<byte>>, i: nat)
    requires Sent(w, params, contents) && i < |params|
    ensures |Concat(contents)| == Sum(w, Front, params)
    ensures Sum(w, Front, params[..i]) + |contents[i]| <= |Concat(contents)|
    ensures Concat(contents)[Sum(w, Front, params[..i])..Sum(w, Front, params[..i]) + |contents[i]|] == contents[i]
    decreases |params|
  {
    var n := |params| - 1;
    var front := contents[..n];
    assert Sent(w, params[..n], front);
    SumStep(w, Front, params, i);
    SumStep(w, Front, params, n);
    ContentsLength(w, params[..n], front);
    if i < n {
      RegionHoldsContents(w, params[..n], front, i);
      assert params[..n][..i] == params[..i];
      var at := Sum(w, Front, params[..i]);
      assert Concat(contents)[at..at + |contents[i]|] == Concat(front)[at..at + |contents[i]|];
    }
  }

  lemma {:induction false} ContentsLength(w: Wire, params: seq<seq<byte>>, contents: seq<seq<byte>>)
    requires Sent(w, params, contents)
    ensures |Concat(contents)| == Sum(w, Front, params)
  {
    if params != [] {
      ContentsLength(w, params[..|params| - 1], contents[..|params| - 1]);
    }
  }

  // ----- One request served -----

  /** A request, what the entry function was given for it (the parameters with the addresses of their
      regions, in a buffer at `address` holding `memory`), and what it left behind. */
  datatype Exchange = Exchange(request: Request, address: nat, given: seq<seq<byte>>, memory: seq<byte>,
                               head: seq<byte>, params: seq<seq<byte>>, result: seq<byte>)

  /** One call of the entry function: header and parameters it was given, where the buffer it was given
      lies and what that held, header, parameters and buffer as it left them, and whether it failed. */
  datatype Call = Call(head0: seq<byte>, given: seq<seq<byte>>, address: nat, before: seq<byte>,
                       head: seq<byte>, params: seq<seq<byte>>, after: seq<byte>, failed: bool)

  function Placed(w: Wire, params: seq<seq<byte>>, address: nat): (placed: seq<seq<byte>>)
    requires address + Total(w, params) < TWO_TO_THE_64
    ensures |placed| == |params|
  {
    seq(|params|, i requires 0 <= i < |params| => PlacedParam(w, params, address, i))
  }

  function PlacedParam(w: Wire, params: seq<seq<byte>>, address: nat, i: nat): seq<byte>
    requires i < |params| && address + Total(w, params) < TWO_TO_THE_64
  {
    if w.kind(params[i]) == Other then params[i]
    else
      RegionBounds(w, params, i);
      w.withRef(params[i], address + RegionStart(w, params, i, Total(w, params)))
  }

  /** Start of the regions still to be placed at the front, and end of those at the back. */
  function Cursor(w: Wire, side: Side, params: seq<seq<byte>>, address: nat, i: nat): (at: uint64)
    requires i <= |params| && address + Total(w, params) < TWO_TO_THE_64
  {
    SumMonotone(w, side, params, i, |params|);
    assert params[..|params|] == params;
    if side == Front then address + Sum(w, Front, params[..i])
    else address + Total(w, params) - Sum(w, Back, params[..i])
  }

  lemma PlaceStep(w: Wire, params: seq<seq<byte>>, address: nat, i: nat)
    requires i < |params| && address + Total(w, params) < TWO_TO_THE_64
    ensures var front, back := Cursor(w, Front, params, address, i), Cursor(w, Back, params, address, i);
      var front', back' := Cursor(w, Front, params, address, i + 1), Cursor(w, Back, params, address, i + 1);
      var kind, size, placed := w.kind(params[i]), w.size(params[i]), Placed(w, params, address)[i];
      && front' == (if kind in {Input, Inout} then front + size else front)
      && back' == (if kind == Output then back - size else back)
      && placed == (if kind == Other then params[i] else w.withRef(params[i], if kind == Output then back' else front))
  {
    SumStep(w, Front, params, i);
    SumStep(w, Back, params, i);
    SumMonotone(w, Front, params, i + 1, |params|);
    SumMonotone(w, Back, params, i + 1, |params|);
  }

  /** What is assumed of `tee_entry_std`, which is not part of this model: a parameter keeps its type and
      the address of its memory, and the header keeps the number of parameters. */
  predicate Respects(w: Wire, given: seq<seq<byte>>, head: seq<byte>, params: seq<seq<byte>>) {
    && |head| == w.headSize && w.count(head) == |given| == |params|
    && forall i | 0 <= i < |given| ::
         && |params[i]| == w.paramSize && w.kind(params[i]) == w.kind(given[i]) && w.ref(params[i]) == w.ref(given[i])
  }

  lemma PlacedRespects(w: Wire, params: seq<seq<byte>>, address: nat, head: seq<byte>)
    requires w.Lawful() && Uniform(params, w.paramSize) && address + Total(w, params) < TWO_TO_THE_64
    requires |head| == w.headSize && w.count(head) == |params|
    ensures Respects(w, Placed(w, params, address), head, Placed(w, params, address))
  {
    var placed := Placed(w, params, address);
    forall i | 0 <= i < |placed|
      ensures |placed[i]| == w.paramSize
    {
      assert placed[i] == PlacedParam(w, params, address, i) && |params[i]| == w.paramSize;
      if w.kind(params[i]) != Other {
        RegionBounds(w, params, i);
        var start := RegionStart(w, params, i, Total(w, params));
        assert placed[i] == w.withRef(params[i], address + start);
      }
    }
  }

  ghost predicate Handled(w: Wire, e: Exchange) {
    && WellFormed(w, e.request)
    && |e.memory| == |e.result| >= Total(w, e.request.params)
    && e.address + |e.memory| < TWO_TO_THE_64
    && e.memory[..|e.request.data|] == e.request.data
    && e.given == Placed(w, e.request.params, e.address)
    && Respects(w, e.given, e.head, e.params)
  }

  /** What is sent back of parameter `i`: of its own region, no more than it announced and no more than
      the entry function says. */
  function Slice(w: Wire, e: Exchange, i: nat): seq<byte>
    requires Handled(w, e) && i < |e.params|
  {
    if w.kind(e.request.params[i]) in {Inout, Output} then
      RegionBounds(w, e.request.params, i);
      var start := RegionStart(w, e.request.params, i, Total(w, e.request.params));
      e.result[start..start + Min(w.size(e.request.params[i]), w.size(e.params[i]))]
    else []
  }

  function Slices(w: Wire, e: Exchange, n: nat): seq<byte>
    requires Handled(w, e) && n <= |e.params|
  {
    if n == 0 then [] else Slices(w, e, n - 1) + Slice(w, e, n - 1)
  }

  /** A reply up to the piece of parameter `n`. */
  function ReplyUpTo(w: Wire, e: Exchange, n: nat): seq<byte>
    requires Handled(w, e) && n <= |e.params|
  {
    e.head + Concat(e.params) + Slices(w, e, n)
  }

  function Reply(w: Wire, e: Exchange): seq<byte>
    requires Handled(w, e)
  {
    ReplyUpTo(w, e, |e.params|)
  }

  /** The piece of parameter `i` follows those before it in the reply. */
  lemma ReplyPiece(w: Wire, e: Exchange, i: nat)
    requires Handled(w, e) && i < |e.params|
    ensures ReplyUpTo(w, e, i) + Slice(w, e, i) <= Reply(w, e)
  {
    hide Handled, Slice;
    PiecesGrow(w, e, i + 1, |e.params|);
    var before := e.head + Concat(e.params);
    assert before + (Slices(w, e, i) + Slice(w, e, i)) == (before + Slices(w, e, i)) + Slice(w, e, i);
  }

  lemma {:induction false} PiecesGrow(w: Wire, e: Exchange, i: nat, j: nat)
    requires Handled(w, e) && i <= j <= |e.params|
    ensures Slices(w, e, i) <= Slices(w, e, j)
    decreases j
  {
    hide Handled, Slice;
    if i < j {
      PiecesGrow(w, e, i, j - 1);
    }
  }

  function Replies(w: Wire, served: seq<Exchange>): seq<byte>
    requires forall i | 0 <= i < |served| :: Handled(w, served[i])
  {
    if served == [] then []
    else Replies(w, served[..|served| - 1]) + Reply(w, served[|served| - 1])
  }

  /** The call of the entry function an exchange is about. */
  function CallOf(e: Exchange): Call {
    Call(e.request.head, e.given, e.address, e.memory, e.head, e.params, e.result, false)
  }

  function Calls(served: seq<Exchange>): (calls: seq<Call>)
    ensures |calls| == |served|
    ensures forall i | 0 <= i < |served| :: calls[i] == CallOf(served[i])
  {
    seq(|served|, i requires 0 <= i < |served| => CallOf(served[i]))
  }

  function Requests(served: seq<Exchange>): (requests: seq<Request>)
    ensures |requests| == |served|
  {
    seq(|served|, i requires 0 <= i < |served| => served[i].request)
  }

  /** Where decoding stands: the requests served so far, and those in the rest of the stream. */
  ghost predicate Reached(w: Wire, stream: seq<byte>, at: nat, served: seq<Exchange>) {
    && w.headSize > 0 && at <= |stream|
    && Decode(w, stream, 0) == Requests(served) + Decode(w, stream, at)
  }

  lemma ReachedStart(w: Wire, stream: seq<byte>)
    requires w.headSize > 0
    ensures Reached(w, stream, 0, [])
  {
    assert Requests([]) + Decode(w, stream, 0) == Decode(w, stream, 0);
  }

  lemma ReachedOversized(w: Wire, stream: seq<byte>, at: nat, served: seq<Exchange>)
    requires Reached(w, stream, at, served) && NextFrame(w, stream, at) == Oversized
    ensures Reached(w, stream, at + w.headSize, served)
  {
  }

  /** The requests served are the first ones, and all of them once no further one is complete. */
  lemma ReachedEnd(w: Wire, stream: seq<byte>, at: nat, served: seq<Exchange>)
    requires Reached(w, stream, at, served)
    ensures Requests(served) <= Decode(w, stream, 0)
    ensures NextFrame(w, stream, at) in {Incomplete, TooLarge} ==> Requests(served) == Decode(w, stream, 0)
  {
  }

  lemma ReachedNext(w: Wire, stream: seq<byte>, at: nat, served: seq<Exchange>, e: Exchange, end: nat)
    requires Reached(w, stream, at, served) && NextFrame(w, stream, at) == Complete(e.request, end)
    ensures Reached(w, stream, end, served + [e])
  {
    hide NextFrame;
    FrameEnds(w, stream, at);
    assert Requests(served + [e]) == Requests(served) + [e.request];
    assert Requests(served) + ([e.request] + Decode(w, stream, end)) == (Requests(served) + [e.request]) + Decode(w, stream, end);
  }

  lemma FrameEnds(w: Wire, stream: seq<byte>, at: nat)
    ensures var next := NextFrame(w, stream, at);
      && (next.Complete? ==> at + w.headSize <= next.end <= |stream| && WellFormed(w, next.request))
      && (next.Oversized? ==> at + w.headSize <= |stream|)
  {
  }

  /** Addition in `size_t`. */
  function Wrap(x: nat): uint64 {
    x % TWO_TO_THE_64
  }

  lemma AddStep(w: Wire, params: seq<seq<byte>>, i: nat)
    requires i < |params|
    ensures var size, was, now := w.size(params[i]), Total(w, params[..i]), Total(w, params[..i + 1]);
      var front, front' := Sum(w, Front, params[..i]), Sum(w, Front, params[..i + 1]);
      match w.kind(params[i])
      case Other => now == was && front' == front
      case Output => Wrap(now) == Wrap(Wrap(was) + size) && front' == front && Carries(was, size, now)
      case _ => Wrap(now) == Wrap(Wrap(was) + size) && Wrap(front') == Wrap(Wrap(front) + size) && Carries(was, size, now)
  {
    hide Sum;
    SumStep(w, Front, params, i);
    SumStep(w, Back, params, i);
    WrapAdd(Total(w, params[..i]), w.size(params[i]));
    WrapAdd(Sum(w, Front, params[..i]), w.size(params[i]));
    hide Wrap;
  }

  predicate Carries(was: nat, size: uint64, now: nat) {
    now >= TWO_TO_THE_64 <==> was >= TWO_TO_THE_64 || Wrap(was) + size >= TWO_TO_THE_64
  }

  lemma WrapAdd(x: nat, size: uint64)
    ensures Wrap(x + size) == Wrap(Wrap(x) + size)
    ensures Carries(x, size, x + size)
  {
  }

  lemma NothingLost(w: Wire, params: seq<seq<byte>>)
    ensures Total(w, params) < TWO_TO_THE_64 ==>
      Wrap(Total(w, params)) == Total(w, params) && Wrap(Sum(w, Front, params)) == Sum(w, Front, params)
  {
  }

  ghost predicate SizesKnown(w: Wire, params: seq<seq<byte>>, sizes: seq<uint64>) {
    && |params| <= |sizes|
    && forall i | 0 <= i < |params| && w.kind(params[i]) != Other :: sizes[i] == w.size(params[i])
  }

  /** A front part of `msg`, or all of it, has been sent. */
  predicate GrewBy(before: seq<byte>, sent: seq<byte>, msg: seq<byte>) {
    before <= sent <= before + msg
  }

  // ----- The server -----

  /** A connection: everything the client will have sent, how much of it has been received, and what has
      been sent to the client. */
  class Connection {
    const w: Wire
    const stream: seq<byte>
    var taken: nat
    var sent: seq<byte>
    ghost var faults: nat
    ghost var served: seq<Exchange>
    /** Where the allocator placed each block, and what the entry function was called with and left behind. */
    ghost var addresses: map<array<byte>, nat>
    ghost var calls: seq<Call>

    constructor (w: Wire, stream: seq<byte>)
      ensures this.w == w && this.stream == stream
      ensures taken == 0 && sent == [] && faults == 0 && served == [] && calls == []
    {
      this.w, this.stream := w, stream;
      taken, sent, faults, served, addresses, calls := 0, [], 0, [], map[], [];
    }

    /** `optee_recv`: each call of `recv` delivers at least one byte of what is left, reports the end of
        the stream, or fails. */
    method OpteeRecv(size: nat) returns (ret: int, msg: seq<byte>)
      requires taken <= |stream|
      modifies this`taken, this`faults
      ensures old(taken) <= taken <= |stream| && faults >= old(faults) && ret in {0, -1}
      ensures ret == 0 ==> taken == old(taken) + size && msg == stream[old(taken)..taken] && faults == old(faults)
      ensures ret == -1 ==> faults > old(faults) || old(taken) + size > |stream|
    {
      var left := size;
      msg := [];
      while left > 0
        invariant 0 <= left <= size && taken == old(taken) + (size - left) <= |stream|
        invariant msg == stream[old(taken)..taken] && faults == old(faults)
      {
        var n: int := *;
        if n < 0 {
          faults := faults + 1;
          return -1, msg;
        }
        n := if taken == |stream| then 0 else Max(1, Min(n, Min(left, |stream| - taken)));
        if n <= 0 {
          return -1, msg;
        }
        msg := msg + stream[taken..taken + n];
        taken := taken + n;
        left := left - n;
      }
      ret := 0;
    }

    /** `optee_send` */
    method OpteeSend(msg: seq<byte>) returns (ret: int)
      modifies this`sent, this`faults
      ensures faults >= old(faults) && ret in {0, -1}
      ensures ret == 0 ==> sent == old(sent) + msg && faults == old(faults)
      ensures ret == -1 ==> faults > old(faults)
      ensures GrewBy(old(sent), sent, msg)
    {
      var done := 0;
      while done < |msg|
        invariant 0 <= done <= |msg| && sent == old(sent) + msg[..done] && faults == old(faults)
      {
        var n: int := *;
        if n <= 0 {
          faults := faults + 1;
          return -1;
        }
        n := Min(n, |msg| - done);
        assert msg[..done] + msg[done..done + n] == msg[..done + n];
        sent := sent + msg[done..done + n];
        done := done + n;
      }
      assert msg[..done] == msg;
      ret := 0;
    }

    /** The loop that adds up the sizes; `lost` is whether a sum did not fit in 64 bits. */
    method AddUp(params: seq<seq<byte>>) returns (sizes: seq<uint64>, total: nat, recv: nat, lost: bool)
      requires |params| <= MAX_PARAMS
      ensures total == Wrap(Total(w, params)) && lost == (Total(w, params) >= TWO_TO_THE_64)
      ensures !lost ==> total == Total(w, params) && recv == Sum(w, Front, params)
      ensures SizesKnown(w, params, sizes)
    {
      sizes, total, recv, lost := [0, 0, 0, 0, 0, 0], 0, 0, false;
      assert params[..0] == [] && Sum(w, Front, []) == Sum(w, Back, []) == 0;
      assert Wrap(0) == 0;
      hide Sum, Total, Share, Wrap;
      for i := 0 to |params|
        invariant |sizes| == MAX_PARAMS
        invariant total == Wrap(Total(w, params[..i])) && recv == Wrap(Sum(w, Front, params[..i]))
        invariant lost == (Total(w, params[..i]) >= TWO_TO_THE_64)
        invariant forall j | 0 <= j < i && w.kind(params[j]) != Other :: sizes[j] == w.size(params[j])
      {
        var kind, size := w.kind(params[i]), w.size(params[i]);
        AddStep(w, params, i);
        if kind == Inout || kind == Input {
          sizes := sizes[i := size];
          lost := lost || total + size >= TWO_TO_THE_64;
          total := Wrap(total + size);
          recv := Wrap(recv + size);
        } else if kind == Output {
          sizes := sizes[i := size];
          lost := lost || total + size >= TWO_TO_THE_64;
          total := Wrap(total + size);
        }
      }
      assert params[..|params|] == params;
      NothingLost(w, params);
    }

    /** `realloc`, which keeps the bytes of the old block that fit in the new one; it may fail. */
    method Realloc(block: array?<byte>, size: nat) returns (moved: array?<byte>, address: nat)
      requires size < TWO_TO_THE_64
      modifies this`faults, this`addresses
      ensures faults >= old(faults) && (moved == null ==> faults > old(faults) && addresses == old(addresses))
      ensures moved != null ==> addresses == old(addresses)[moved := address]
      ensures moved != null ==>
        && fresh(moved) && moved.Length == size && address + size < TWO_TO_THE_64 && faults == old(faults)
        && (block != null ==> forall i | 0 <= i < Min(size, block.Length) :: moved[i] == block[i])
    {
      address := *;
      if address + size >= TWO_TO_THE_64 {
        faults := faults + 1;
        return null, 0;
      }
      var bytes := new byte[size](_ => 0);
      if block != null {
        forall i | 0 <= i < Min(size, block.Length) {
          bytes[i] := block[i];
        }
      }
      moved := bytes;
      addresses := addresses[bytes := address];
    }

    /** The loop that gives every region its place. */
    method Place(was: seq<seq<byte>>, sizes: seq<uint64>, address: nat, total: nat) returns (params: seq<seq<byte>>)
      requires w.Lawful() && Uniform(was, w.paramSize) && SizesKnown(w, was, sizes)
      requires total == Total(w, was) && address + total < TWO_TO_THE_64
      ensures params == Placed(w, was, address)
    {
      params := was;
      assert was[..0] == [] && Sum(w, Front, []) == Sum(w, Back, []) == 0;
      hide Sum, Total, Placed, Share, Uniform, Wire.Lawful;
      ghost var placed := Placed(w, was, address);
      var shmTmp, shmEnd := address, address + total;
      assert shmTmp == Cursor(w, Front, was, address, 0) && shmEnd == Cursor(w, Back, was, address, 0);
      hide Cursor;
      for i := 0 to |was|
        invariant shmTmp == Cursor(w, Front, was, address, i) && shmEnd == Cursor(w, Back, was, address, i)
        invariant |params| == |was|
        invariant forall j | 0 <= j < i :: params[j] == placed[j]
        invariant forall j | i <= j < |was| :: params[j] == was[j]
      {
        PlaceStep(w, was, address, i);
        var kind := w.kind(params[i]);
        if kind == Inout || kind == Input {
          params := params[i := w.withRef(params[i], shmTmp)];
          shmTmp := shmTmp + sizes[i];
        } else if kind == Output {
          shmEnd := shmEnd - sizes[i];
          params := params[i := w.withRef(params[i], shmEnd)];
        }
      }
    }

    /** `tee_entry_std`: anything may happen to the shared buffer, the header and the parameters, within
        what is assumed of it. */
    method EntryStd(head0: seq<byte>, given: seq<seq<byte>>, shm: array<byte>)
      returns (ret: int, head: seq<byte>, params: seq<seq<byte>>)
      requires Respects(w, given, head0, given) && shm in addresses
      modifies shm, this`faults, this`calls
      ensures calls == old(calls) + [Call(head0, given, addresses[shm], old(shm[..]), head, params, shm[..], ret < 0)]
      ensures faults >= old(faults) && (ret < 0 ==> faults > old(faults)) && (ret >= 0 ==> faults == old(faults))
      ensures Respects(w, given, head, params)
    {
      ghost var before := shm[..];
      var content: seq<byte> := *;
      if |content| == shm.Length {
        forall i | 0 <= i < shm.Length {
          shm[i] := content[i];
        }
      }
      head, params := *, *;
      if !Respects(w, given, head, params) {
        head, params := head0, given;
      }
      ret := *;
      calls := calls + [Call(head0, given, addresses[shm], before, head, params, shm[..], ret < 0)];
      if ret < 0 {
        faults := faults + 1;
      }
    }

    /** The reply: the message, then what is returned of each region. When a piece cannot be sent the rest
        of the pieces is dropped, but the connection goes on. */
    method SendReply(ghost e: Exchange, head: seq<byte>, params: seq<seq<byte>>, sizes: seq<uint64>,
                     address: nat, shm: array<byte>)
      returns (ok: bool)
      requires Handled(w, e) && e.address == address && e.head == head && e.params == params && e.result == shm[..]
      requires SizesKnown(w, e.request.params, sizes) && w.Lawful()
      modifies this`sent, this`faults
      ensures faults >= old(faults)
      ensures !ok ==> faults > old(faults) && GrewBy(old(sent), sent, head + Concat(params))
      ensures GrewBy(old(sent), sent, Reply(w, e))
      ensures faults == old(faults) ==> sent == old(sent) + Reply(w, e)
    {
      hide Handled, ReplyUpTo, SizesKnown, Slice, Wire.Lawful, Reply, Concat, Slices, GrewBy;
      ReplyStart(w, e);
      WholeReply(w, e);
      var ret := OpteeSend(head + Concat(params));
      SentFirst(old(sent), head + Concat(params), Reply(w, e), sent);
      if ret < 0 {
        return false;
      }
      ok := true;
      for i := 0 to |params|
        invariant faults == old(faults) && sent == old(sent) + ReplyUpTo(w, e, i)
        invariant GrewBy(old(sent), sent, Reply(w, e))
      {
        var kind := w.kind(params[i]);
        NextPiece(w, e, i, sizes);
        if kind == Output || kind == Inout {
          var start := w.ref(params[i]) - address;
          var piece := shm[start..start + Min(sizes[i], w.size(params[i]))];
          ret := OpteeSend(piece);
          SentMore(old(sent), ReplyUpTo(w, e, i), piece, Reply(w, e), sent);
          if ret < 0 {
            break;
          }
        }
      }
    }

    /** The first half of an iteration: a header and its parameters. */
    method ReceiveMessage() returns (received: Received, head: seq<byte>, params: seq<seq<byte>>)
      requires taken <= |stream|
      modifies this`taken, this`faults
      ensures old(taken) <= taken <= |stream| && faults >= old(faults)
      ensures received == Dropped ==> NextFrame(w, stream, old(taken)) == Oversized && taken == old(taken) + w.headSize
      ensures received == Ended ==> faults > old(faults) || NextFrame(w, stream, old(taken)) == Incomplete
      ensures received == Message ==> MessageAt(w, stream, old(taken), head, params, taken)
    {
      var ret;
      params := [];
      ret, head := OpteeRecv(w.headSize);
      if ret < 0 {
        return Ended, head, params;
      }
      var n := w.count(head);
      if n > MAX_PARAMS {
        return Dropped, head, params;
      }
      var bytes: seq<byte> := [];
      if n > 0 {
        ret, bytes := OpteeRecv(Times(n, w.paramSize));
        if ret < 0 {
          return Ended, head, params;
        }
      }
      received, params := Message, Records(bytes, n, w.paramSize);
    }

    /** Makes the buffer large enough, keeping it if it is, and receives the input bytes into its front. */
    method FillBuffer(total: nat, recv: nat, shm0: array?<byte>, shmSize0: nat, address0: nat)
      returns (ok: bool, shm: array?<byte>, shmSize: nat, address: nat, ghost data: seq<byte>)
      requires recv <= total < TWO_TO_THE_64 && taken <= |stream|
      requires shm0 != null ==> shm0.Length == shmSize0 && address0 + shmSize0 < TWO_TO_THE_64
      requires shm0 != null ==> shm0 in addresses && addresses[shm0] == address0
      modifies this`taken, this`faults, this`addresses, shm0
      ensures old(taken) <= taken <= |stream| && faults >= old(faults)
      ensures shm != null ==> (shm == shm0 || fresh(shm)) && shm.Length == shmSize && address + shmSize < TWO_TO_THE_64
      ensures shm != null ==> shm in addresses && addresses[shm] == address
      ensures ok ==>
        && shm != null && shm.Length >= total && faults == old(faults)
        && taken == old(taken) + recv && data == stream[old(taken)..taken] == shm[..recv]
      ensures !ok ==> faults > old(faults) || old(taken) + recv > |stream|
    {
      ok, shm, shmSize, address, data := false, shm0, shmSize0, address0, [];
      if shm == null || total > shmSize {
        var moved, movedTo := Realloc(shm, total);
        if moved == null {
          return;
        }
        shm, shmSize, address := moved, total, movedTo;
      }
      if recv > 0 {
        var ret, bytes := OpteeRecv(recv);
        if ret < 0 {
          return;
        }
        forall i | 0 <= i < recv {
          shm[i] := bytes[i];
        }
        data := bytes;
        assert shm[..recv] == data;
      }
      ok := true;
    }

    /** The second half: the shared buffer, the entry function and the reply. `more` is whether the loop
        goes on; `shm` is the buffer, of `shmSize` bytes at `address`. */
    method ServeMessage(ghost at: nat, head0: seq<byte>, params0: seq<seq<byte>>,
                        shm0: array?<byte>, shmSize0: nat, address0: nat)
      returns (more: bool, shm: array?<byte>, shmSize: nat, address: nat, ghost e: Exchange)
      requires w.Lawful() && at <= taken <= |stream| && MessageAt(w, stream, at, head0, params0, taken)
      requires shm0 != null ==> shm0.Length == shmSize0 && address0 + shmSize0 < TWO_TO_THE_64
      requires shm0 != null ==> shm0 in addresses && addresses[shm0] == address0
      modifies this`taken, this`sent, this`faults, this`addresses, this`calls, shm0
      ensures old(taken) <= taken <= |stream| && faults >= old(faults)
      ensures shm != null ==> (shm == shm0 || fresh(shm)) && shm.Length == shmSize && address + shmSize < TWO_TO_THE_64
      ensures shm != null ==> shm in addresses && addresses[shm] == address
      ensures more ==> calls == old(calls) + [CallOf(e)]
      ensures !more ==> old(calls) <= calls && |calls| <= |old(calls)| + 1
      ensures !more && faults == old(faults) ==> calls == old(calls)
      ensures calls == old(calls) || calls[|old(calls)|].failed ==> sent == old(sent)
      ensures !more && faults == old(faults) ==> NextFrame(w, stream, at) in {Incomplete, TooLarge} && sent == old(sent)
      ensures more ==> Handled(w, e) && NextFrame(w, stream, at) == Complete(e.request, taken)
      ensures more && faults == old(faults) ==> sent == old(sent) + Reply(w, e)
      ensures old(sent) <= sent && (more ==> GrewBy(old(sent), sent, Reply(w, e)))
    {
      hide MessageAt, NextFrame, Handled, Respects, Placed, SizesKnown, Reply, Sum, Total, Wire.Lawful, Concat, Wrap;
      shm, shmSize, address := shm0, shmSize0, address0;
      MessageKnown(w, stream, at, head0, params0, taken);
      e := Exchange(Request([], [], []), 0, [], [], [], [], []);
      more := false;
      var sizes, total, recv, lost := AddUp(params0);
      if lost {
        // The source goes on with a buffer that is too small for the regions; the model stops here.
        return;
      }
      var ok;
      ghost var data;
      ok, shm, shmSize, address, data := FillBuffer(total, recv, shm0, shmSize0, address0);
      if !ok {
        return;
      }
      var given := Place(params0, sizes, address, total);
      ghost var memory := shm[..];
      PlacedRespects(w, params0, address, head0);
      var ret, head, params := EntryStd(head0, given, shm);
      if ret < 0 {
        return;
      }
      e := Exchange(Request(head0, params0, data), address, given, memory, head, params, shm[..]);
      ExchangeHandled(w, e);
      more := SendReply(e, head, params, sizes, address, shm);
    }

    /** Everything the thread keeps true between requests. */
    ghost predicate Serving()
      reads this
    {
      && w.Lawful() && Reached(w, stream, taken, served)
      && (forall i | 0 <= i < |served| :: Handled(w, served[i]))
      && (faults == 0 ==> sent == Replies(w, served))
      && calls == Calls(served)
    }

    /** `optee_thread`. The requests handed to the entry function are those of the stream, in order and with
        nothing skipped, for every way `recv` cuts the stream up; each is one call of it. What has been sent
        is a front part of each reply, in order. If nothing fails they are all requests, and all of their
        replies. */
    method OpteeThread() returns (ghost replies: seq<seq<byte>>)
      requires w.Lawful() && taken == 0 && sent == [] && faults == 0 && served == [] && calls == []
      modifies this
      ensures Calls(served) <= calls && |calls| <= |served| + 1 && (faults == 0 ==> calls == Calls(served))
      ensures forall i | 0 <= i < |served| :: Handled(w, served[i])
      ensures Requests(served) <= Decode(w, stream, 0)
      ensures faults == 0 ==> Requests(served) == Decode(w, stream, 0) && sent == Replies(w, served)
      ensures |replies| == |served| && (forall i | 0 <= i < |served| :: replies[i] <= Reply(w, served[i]))
      ensures Concat(replies) <= sent
    {
      replies := [];
      hide NextFrame, MessageAt, Handled, Decode, Requests, Reply, Replies, Calls, Concat;
      NothingSent(w);
      var shm: array?<byte> := null;
      var shmSize, address: nat := 0, 0;
      ReachedStart(w, stream);
      while true
        invariant Serving()
        invariant FrontParts(w, served, replies, sent)
        invariant shm != null ==> fresh(shm) && shm.Length == shmSize && address + shmSize < TWO_TO_THE_64
        invariant shm != null ==> shm in addresses && addresses[shm] == address
        decreases |stream| - taken
      {
        ghost var at := taken;
        ReachedEnd(w, stream, at, served);
        var received, head, params := ReceiveMessage();
        if received == Ended {
          break;
        }
        if received == Dropped {
          ReachedOversized(w, stream, at, served);
          continue;
        }
        MessageKnown(w, stream, at, head, params, taken);
        var more: bool;
        ghost var e: Exchange;
        ghost var before := sent;
        more, shm, shmSize, address, e := ServeMessage(at, head, params, shm, shmSize, address);
        if !more {
          break;
        }
        ReachedNext(w, stream, at, served, e, taken);
        FrontPartsMore(w, served, replies, before, e, sent);
        served, replies := served + [e], replies + [sent[|before|..]];
      }
    }
  }

  lemma ExchangeHandled(w: Wire, e: Exchange)
    requires w.Lawful() && WellFormed(w, e.request)
    requires |e.memory| == |e.result| >= Total(w, e.request.params) && e.address + |e.memory| < TWO_TO_THE_64
    requires e.memory[..|e.request.data|] == e.request.data && e.given == Placed(w, e.request.params, e.address)
    requires Respects(w, e.given, e.head, e.params)
    ensures Handled(w, e)
  {
  }

  datatype Received = Message | Dropped | Ended

  /** A header and its parameters lie in the stream from `at` to `data`. */
  ghost predicate MessageAt(w: Wire, stream: seq<byte>, at: nat, head: seq<byte>, params: seq<seq<byte>>, data: nat) {
    var start := at + w.headSize;
    && start <= data <= |stream| && head == stream[at..start]
    && w.count(head) <= MAX_PARAMS && data == start + Times(w.count(head), w.paramSize)
    && params == Records(stream[start..data], w.count(head), w.paramSize)
  }

  lemma MessageKnown(w: Wire, stream: seq<byte>, at: nat, head: seq<byte>, params: seq<seq<byte>>, data: nat)
    requires MessageAt(w, stream, at, head, params, data)
    ensures at + w.headSize <= data
    ensures |head| == w.headSize && w.count(head) == |params| <= MAX_PARAMS && Uniform(params, w.paramSize)
    ensures Sum(w, Front, params) <= Total(w, params)
    ensures var end := data + Sum(w, Front, params);
      if Total(w, params) >= TWO_TO_THE_64 then NextFrame(w, stream, at) == TooLarge
      else if |stream| < end then NextFrame(w, stream, at) == Incomplete
      else NextFrame(w, stream, at) == Complete(Request(head, params, stream[data..end]), end)
  {
    hide Sum, Records, Times;
  }

  lemma ReplyStart(w: Wire, e: Exchange)
    requires Handled(w, e)
    ensures ReplyUpTo(w, e, 0) == e.head + Concat(e.params) <= Reply(w, e)
  {
    ReplyGrows(w, e, 0);
  }

  /** What has been sent is a front part of each reply, in order. */
  ghost predicate FrontParts(w: Wire, served: seq<Exchange>, replies: seq<seq<byte>>, sent: seq<byte>) {
    && |replies| == |served| && Concat(replies) == sent
    && (forall i | 0 <= i < |served| :: Handled(w, served[i]) && replies[i] <= Reply(w, served[i]))
  }

  lemma NothingSent(w: Wire)
    ensures FrontParts(w, [], [], []) && Calls([]) == [] && Replies(w, []) == []
  {
  }

  lemma FrontPartsMore(w: Wire, served: seq<Exchange>, replies: seq<seq<byte>>, before: seq<byte>, e: Exchange, sent: seq<byte>)
    requires FrontParts(w, served, replies, before) && Handled(w, e) && GrewBy(before, sent, Reply(w, e))
    ensures FrontParts(w, served + [e], replies + [sent[|before|..]], sent)
    ensures Calls(served + [e]) == Calls(served) + [CallOf(e)] && Replies(w, served + [e]) == Replies(w, served) + Reply(w, e)
  {
    hide Handled, Reply;
    var part := sent[|before|..];
    assert (replies + [part])[..|replies|] == replies && before + part == sent;
    assert (served + [e])[..|served|] == served;
    assert part <= Reply(w, e);
  }

  lemma NextPiece(w: Wire, e: Exchange, i: nat, sizes: seq<uint64>)
    requires w.Lawful() && Handled(w, e) && i < |e.params| && SizesKnown(w, e.request.params, sizes)
    ensures i < |sizes| && ReplyUpTo(w, e, i + 1) <= Reply(w, e)
    ensures if w.kind(e.params[i]) in {Inout, Output} then
        var start, length := w.ref(e.params[i]) - e.address, Min(sizes[i], w.size(e.params[i]));
        && 0 <= start <= start + length <= |e.result|
        && ReplyUpTo(w, e, i) + e.result[start..start + length] == ReplyUpTo(w, e, i + 1)
      else ReplyUpTo(w, e, i + 1) == ReplyUpTo(w, e, i)
  {
    hide Handled, ReplyUpTo, SizesKnown, Slice, Wire.Lawful, Reply, RegionStart;
    SliceSent(w, e, i, sizes);
    ReplyGrows(w, e, i + 1);
  }

  lemma WholeReply(w: Wire, e: Exchange)
    requires Handled(w, e)
    ensures ReplyUpTo(w, e, |e.params|) == Reply(w, e)
  {
  }

  lemma SentFirst(before: seq<byte>, piece: seq<byte>, reply: seq<byte>, sent: seq<byte>)
    requires piece <= reply && GrewBy(before, sent, piece)
    ensures GrewBy(before, sent, reply)
  {
    assert before + piece <= before + reply;
  }

  /** With `upTo` of a reply sent, any front part of the next piece makes a front part of it. */
  lemma SentMore(before: seq<byte>, upTo: seq<byte>, piece: seq<byte>, reply: seq<byte>, sent: seq<byte>)
    requires upTo + piece <= reply && GrewBy(before + upTo, sent, piece)
    ensures GrewBy(before, sent, reply) && (before + upTo) + piece == before + (upTo + piece)
  {
    assert before + upTo + piece == before + (upTo + piece) <= before + reply;
  }

  lemma ReplyGrows(w: Wire, e: Exchange, i: nat)
    requires Handled(w, e) && i <= |e.params|
    ensures ReplyUpTo(w, e, i) <= Reply(w, e)
  {
    hide Handled, Slice;
    PiecesGrow(w, e, i, |e.params|);
    var before := e.head + Concat(e.params);
    assert before + Slices(w, e, i) <= before + Slices(w, e, |e.params|);
  }

  /** The address the server finds in a parameter is that of its own region, so that is what it sends. */
  lemma SliceSent(w: Wire, e: Exchange, i: nat, sizes: seq<uint64>)
    requires w.Lawful() && Handled(w, e) && i < |e.params| && SizesKnown(w, e.request.params, sizes)
    ensures i < |sizes|
    ensures w.kind(e.params[i]) == w.kind(e.request.params[i])
    ensures if w.kind(e.params[i]) in {Inout, Output} then
        var start, length := w.ref(e.params[i]) - e.address, Min(sizes[i], w.size(e.params[i]));
        && start == RegionStart(w, e.request.params, i, Total(w, e.request.params))
        && 0 <= start <= start + length <= |e.result| && length <= w.size(e.request.params[i])
        && Slice(w, e, i) == e.result[start..start + length]
        && ReplyUpTo(w, e, i + 1) == ReplyUpTo(w, e, i) + e.result[start..start + length]
      else ReplyUpTo(w, e, i + 1) == ReplyUpTo(w, e, i)
  {
    var params := e.request.params;
    var before := e.head + Concat(e.params);
    assert before + (Slices(w, e, i) + Slice(w, e, i)) == (before + Slices(w, e, i)) + Slice(w, e, i);
    assert ReplyUpTo(w, e, i) + [] == ReplyUpTo(w, e, i);
    assert e.given[i] == PlacedParam(w, params, e.address, i);
    if w.kind(params[i]) != Other {
      RegionBounds(w, params, i);
    }
  }

  // ----- What the entry function and the client get -----

  /** The entry function finds a parameter as it was sent, with the address of its region. */
  lemma GivenRegion(w: Wire, e: Exchange, i: nat)
    requires w.Lawful() && Handled(w, e) && i < |e.given|
    ensures |e.given| == |e.request.params| == |e.params|
    ensures w.kind(e.given[i]) == w.kind(e.params[i]) == w.kind(e.request.params[i])
    ensures w.size(e.given[i]) == w.size(e.request.params[i]) && w.ref(e.params[i]) == w.ref(e.given[i])
    ensures if w.kind(e.given[i]) == Other then e.given[i] == e.request.params[i]
            else w.ref(e.given[i]) - e.address == RegionStart(w, e.request.params, i, Total(w, e.request.params))
                 && e.address <= w.ref(e.given[i]) <= e.address + |e.memory| - w.size(e.given[i])
  {
    assert e.given[i] == PlacedParam(w, e.request.params, e.address, i);
    if w.kind(e.request.params[i]) != Other {
      RegionBounds(w, e.request.params, i);
    }
  }

  lemma PartOfPrefix(memory: seq<byte>, data: seq<byte>, at: nat, size: nat)
    requires data <= memory && at + size <= |data|
    ensures memory[at..at + size] == data[at..at + size]
  {
  }

  /** In the buffer it is called with, at the address it finds in a parameter, the entry function finds the
      bytes the client sent for that parameter. */
  lemma EntryFinds(w: Wire, e: Exchange, contents: seq<seq<byte>>, i: nat)
    requires w.Lawful() && Handled(w, e) && i < |contents| == |e.request.params| && e.request.data == Concat(contents)
    requires forall k | 0 <= k < |contents| ::
      |contents[k]| == if w.kind(e.request.params[k]) in {Input, Inout} then w.size(e.request.params[k]) else 0
    ensures w.kind(e.given[i]) == w.kind(e.request.params[i]) && w.size(e.given[i]) == w.size(e.request.params[i])
    ensures w.kind(e.given[i]) in {Input, Inout} ==>
      var at := w.ref(e.given[i]) - e.address;
      0 <= at <= at + w.size(e.given[i]) <= |e.memory| && e.memory[at..at + w.size(e.given[i])] == contents[i]
  {
    hide Handled, Sum, Concat, Share, RegionStart;
    InputRegion(w, e, contents, i);
    GivenRegion(w, e, i);
    if w.kind(e.given[i]) in {Input, Inout} {
      RegionHoldsContents(w, e.request.params, contents, i);
      PartOfPrefix(e.memory, e.request.data, Sum(w, Front, e.request.params[..i]), w.size(e.given[i]));
    }
  }

  lemma InputRegion(w: Wire, e: Exchange, contents: seq<seq<byte>>, i: nat)
    requires Handled(w, e) && i < |contents| == |e.request.params|
    requires forall k | 0 <= k < |contents| ::
      |contents[k]| == if w.kind(e.request.params[k]) in {Input, Inout} then w.size(e.request.params[k]) else 0
    ensures Sent(w, e.request.params, contents) && e.request.data <= e.memory && |e.given| == |contents|
    ensures w.kind(e.request.params[i]) in {Input, Inout} ==>
      RegionStart(w, e.request.params, i, Total(w, e.request.params)) == Sum(w, Front, e.request.params[..i])
  {
    hide Sum;
  }

  /** No address belongs to two of the parameters it finds. */
  lemma GivenApart(w: Wire, e: Exchange, i: nat, j: nat, x: int)
    requires w.Lawful() && Handled(w, e) && i < |e.given| && j < |e.given|
    requires w.kind(e.given[i]) != Other && w.ref(e.given[i]) <= x < w.ref(e.given[i]) + w.size(e.given[i])
    requires w.kind(e.given[j]) != Other && w.ref(e.given[j]) <= x < w.ref(e.given[j]) + w.size(e.given[j])
    ensures i == j
  {
    GivenRegion(w, e, i);
    GivenRegion(w, e, j);
    RegionsDisjoint(w, e.request.params, i, j, x - e.address);
  }

  function SlicesOf(w: Wire, e: Exchange): (pieces: seq<seq<byte>>)
    requires Handled(w, e)
    ensures |pieces| == |e.params|
  {
    seq(|e.params|, i requires 0 <= i < |e.params| => Slice(w, e, i))
  }

  /** The client gets the header and the parameters as the entry function left them, and then, for each
      output in order, what that left at the address of the parameter, as much as both sizes allow. */
  lemma ReplyIs(w: Wire, e: Exchange)
    requires w.Lawful() && Handled(w, e)
    ensures Reply(w, e) == e.head + Concat(e.params) + Concat(SlicesOf(w, e))
    ensures |e.params| == |e.given| == |e.request.params|
    ensures forall i | 0 <= i < |e.params| ::
      if w.kind(e.request.params[i]) in {Inout, Output} then
        var at, size := w.ref(e.given[i]) - e.address, Min(w.size(e.request.params[i]), w.size(e.params[i]));
        0 <= at <= at + size <= |e.result| && SlicesOf(w, e)[i] == e.result[at..at + size]
      else SlicesOf(w, e)[i] == []
  {
    SlicesConcat(w, e, |e.params|);
    var pieces := SlicesOf(w, e);
    assert pieces[..|pieces|] == pieces;
    forall i | 0 <= i < |e.params|
      ensures |e.params| == |e.given|
      ensures if w.kind(e.request.params[i]) in {Inout, Output} then
          var at, size := w.ref(e.given[i]) - e.address, Min(w.size(e.request.params[i]), w.size(e.params[i]));
          0 <= at <= at + size <= |e.result| && pieces[i] == e.result[at..at + size]
        else pieces[i] == []
    {
      GivenRegion(w, e, i);
    }
  }

  lemma {:induction false} SlicesConcat(w: Wire, e: Exchange, n: nat)
    requires Handled(w, e) && n <= |e.params|
    ensures Slices(w, e, n) == Concat(SlicesOf(w, e)[..n])
  {
    hide Handled, Slice;
    if n > 0 {
      SlicesConcat(w, e, n - 1);
      var pieces := SlicesOf(w, e);
      assert pieces[..n][..n - 1] == pieces[..n - 1];
    }
  }
}
