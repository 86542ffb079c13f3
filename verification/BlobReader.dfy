/** Reading Git blobs in bounded batches through the length-framed `cat-file` protocol. */
module BlobReader {
  import opened Sequences

  newtype Byte = x: int | 0 <= x < 256

  type Bytes = seq<Byte>

  const MAX_TEXT_BYTES := 5 * 1024 * 1024
  const MAX_BATCH_ENTRIES := 256
  const MAX_BATCH_BYTES := 8 * 1024 * 1024
  const NEWLINE: Byte := 10

  datatype BlobEntry = BlobEntry(oid: Bytes, file: string, mode: string)

  /** One parsed line of the batch check; the size is absent when it is not a non-negative safe integer. */
  datatype MetadataLine = MetadataLine(oid: Bytes, kind: string, size: Option<nat>)

  function Decimal(n: nat): Bytes {
    if n < 10 then [(48 + n) as Byte] else Decimal(n / 10) + [(48 + n % 10) as Byte]
  }

  /** The header line of a frame: object, type and size in decimal, closed by a newline. */
  function Header(oid: Bytes, size: nat): Bytes {
    oid + [32, 98, 108, 111, 98, 32] + Decimal(size) + [NEWLINE]
  }

  /** What a run of digits stands for. */
  function DigitsValue(digits: Bytes): int {
    if digits == [] then 0 else DigitsValue(digits[..|digits| - 1]) * 10 + (digits[|digits| - 1] as int - 48)
  }

  /** The decimal form has digits only, one of them for numbers below ten, no leading zero, and the right value. */
  lemma {:induction false} DecimalExact(n: nat)
    ensures Decimal(n) != [] && forall b | b in Decimal(n) :: 48 <= b as int <= 57
    ensures n > 0 ==> Decimal(n)[0] != 48
    ensures |Decimal(n)| == 1 <==> n < 10
    ensures DigitsValue(Decimal(n)) == n
  {
    if n >= 10 {
      var head, last := Decimal(n / 10), (48 + n % 10) as Byte;
      DecimalExact(n / 10);
      assert Decimal(n) == head + [last];
      assert (head + [last])[..|head|] == head;
    } else {
      assert Decimal(n)[..0] == [];
    }
  }

  /** A header gives away its object and its size, among objects whose names are equally long. */
  lemma HeaderDetermines(oid: Bytes, size: nat, other: Bytes, otherSize: nat)
    requires |oid| == |other| && Header(oid, size) == Header(other, otherSize)
    ensures oid == other && size == otherSize
  {
    var a, b, n := Header(oid, size), Header(other, otherSize), |oid| + 6;
    assert oid == a[..|oid|] && other == b[..|oid|];
    assert Decimal(size) == a[n..|a| - 1] && Decimal(otherSize) == b[n..|b| - 1];
    DecimalExact(size);
    DecimalExact(otherSize);
  }

  /** The fixed part of a header is the word `blob` between two spaces, and it ends its line. */
  lemma HeaderShape(oid: Bytes, size: nat)
    ensures var h, n := Header(oid, size), |oid|;
      |h| > n + 7 && h[..n] == oid && h[n] == 32 && h[n + 5] == 32 && h[|h| - 1] == NEWLINE &&
      (forall i | 0 <= i < 4 :: h[n + 1 + i] as int == "blob"[i] as int) &&
      DigitsValue(h[n + 6..|h| - 1]) == size && forall i | n + 6 <= i < |h| - 1 :: 48 <= h[i] as int <= 57
  {
    DecimalExact(size);
    var h, n := Header(oid, size), |oid|;
    var d := Decimal(size);
    assert h[n + 6..|h| - 1] == d;
    forall i | n + 6 <= i < |h| - 1 ensures 48 <= h[i] as int <= 57 {
      assert h[i] == d[i - n - 6] && d[i - n - 6] in d;
    }
    assert h == oid + ([32, 98, 108, 111, 98, 32] + Decimal(size) + [NEWLINE]);
  }

  /** One frame that the reader waits for: its header line and the length of its body. */
  datatype Expected = Expected(header: Bytes, size: nat)

  /** The given bodies, each behind its header and followed by a newline. */
  function Frames(expected: seq<Expected>, bodies: seq<Bytes>): Bytes
    requires |bodies| == |expected|
  {
    if expected == [] then []
    else expected[0].header + bodies[0] + [NEWLINE] + Frames(expected[1..], bodies[1..])
  }

  predicate SizesFit(expected: seq<Expected>, bodies: seq<Bytes>) {
    |bodies| == |expected| && forall i | 0 <= i < |expected| :: |bodies[i]| == expected[i].size
  }

  /** The output is exactly one frame for each expectation, with bodies of the announced sizes. */
  predicate Framed(expected: seq<Expected>, output: Bytes, bodies: seq<Bytes>) {
    SizesFit(expected, bodies) && output == Frames(expected, bodies)
  }

  // ----- the frame parser

  predicate FrameAt(e: Expected, output: Bytes, offset: nat) {
    var start := offset + |e.header|;
    start + e.size < |output| && output[offset..start] == e.header && output[start + e.size] == NEWLINE
  }

  function BodyAt(e: Expected, output: Bytes, offset: nat): Bytes
    requires FrameAt(e, output, offset)
  {
    output[offset + |e.header|..offset + |e.header| + e.size]
  }

  function After(e: Expected, offset: nat): nat {
    offset + |e.header| + e.size + 1
  }

  /** The bodies read off frame by frame from an offset to the end, or none when some frame does not fit. */
  function Parse(expected: seq<Expected>, output: Bytes, offset: nat): Option<seq<Bytes>> {
    if expected == [] then (if offset == |output| then Some([]) else None)
    else if !FrameAt(expected[0], output, offset) then None
    else Prefixed([BodyAt(expected[0], output, offset)], Parse(expected[1..], output, After(expected[0], offset)))
  }

  function Prefixed(bodies: seq<Bytes>, rest: Option<seq<Bytes>>): Option<seq<Bytes>> {
    match rest
    case None => None
    case Some(more) => Some(bodies + more)
  }

  lemma FrameIsThere(e: Expected, body: Bytes, output: Bytes, offset: nat, tail: Bytes)
    requires offset <= |output| && |body| == e.size
    ensures output[offset..] == e.header + body + [NEWLINE] + tail <==>
            FrameAt(e, output, offset) && BodyAt(e, output, offset) == body && output[After(e, offset)..] == tail
  {
    var rest, h := output[offset..], |e.header|;
    if rest == e.header + body + [NEWLINE] + tail {
      assert output[offset..offset + h] == rest[..h] == e.header;
      assert output[offset + h..offset + h + e.size] == rest[h..h + e.size] == body;
      assert output[offset + h + e.size] == rest[h + e.size] == NEWLINE;
      assert output[After(e, offset)..] == rest[h + e.size + 1..] == tail;
    }
    if FrameAt(e, output, offset) && BodyAt(e, output, offset) == body && output[After(e, offset)..] == tail {
      assert rest == output[offset..offset + h] + body + [output[offset + h + e.size]] + tail;
    }
  }

  lemma SizesCons(expected: seq<Expected>, bodies: seq<Bytes>)
    requires |bodies| == |expected| > 0
    ensures SizesFit(expected, bodies) <==> |bodies[0]| == expected[0].size && SizesFit(expected[1..], bodies[1..])
  {
    if |bodies[0]| == expected[0].size && SizesFit(expected[1..], bodies[1..]) {
      forall i | 0 <= i < |expected| ensures |bodies[i]| == expected[i].size {
        if i > 0 { assert bodies[i] == bodies[1..][i - 1] && expected[i] == expected[1..][i - 1]; }
      }
    }
  }

  lemma {:induction false} ParseIsSound(expected: seq<Expected>, output: Bytes, offset: nat)
    requires Parse(expected, output, offset).Some?
    ensures offset <= |output| && Framed(expected, output[offset..], Parse(expected, output, offset).value)
  {
    if expected != [] {
      var e, next := expected[0], After(expected[0], offset);
      var body, bodies := BodyAt(e, output, offset), Parse(expected, output, offset).value;
      ParseIsSound(expected[1..], output, next);
      assert bodies[1..] == Parse(expected[1..], output, next).value;
      SizesCons(expected, bodies);
      FrameIsThere(e, body, output, offset, output[next..]);
    }
  }

  lemma {:induction false} ParseIsComplete(expected: seq<Expected>, output: Bytes, offset: nat, bodies: seq<Bytes>)
    requires offset <= |output| && Framed(expected, output[offset..], bodies)
    ensures Parse(expected, output, offset) == Some(bodies)
  {
    if expected != [] {
      SizesCons(expected, bodies);
      FrameIsThere(expected[0], bodies[0], output, offset, Frames(expected[1..], bodies[1..]));
      ParseIsComplete(expected[1..], output, After(expected[0], offset), bodies[1..]);
      assert [bodies[0]] + bodies[1..] == bodies;
    }
  }

  /** Outputs are accepted exactly when they are framed, and then the bodies are determined. */
  lemma ParseExact(expected: seq<Expected>, output: Bytes, bodies: seq<Bytes>)
    ensures Parse(expected, output, 0) == Some(bodies) <==> Framed(expected, output, bodies)
  {
    assert output[0..] == output;
    if Parse(expected, output, 0) == Some(bodies) { ParseIsSound(expected, output, 0); }
    if Framed(expected, output, bodies) { ParseIsComplete(expected, output, 0, bodies); }
  }

  lemma ParseAdvance(expected: seq<Expected>, output: Bytes, i: nat, offset: nat, bodies: seq<Bytes>)
    requires i < |expected|
    ensures Prefixed(bodies, Parse(expected[i..], output, offset)) ==
            if !FrameAt(expected[i], output, offset) then None
            else Prefixed(bodies + [BodyAt(expected[i], output, offset)],
                          Parse(expected[i + 1..], output, After(expected[i], offset)))
  {
    assert expected[i..][0] == expected[i] && expected[i..][1..] == expected[i + 1..];
    if FrameAt(expected[i], output, offset) {
      PrefixedTwice(bodies, [BodyAt(expected[i], output, offset)],
                    Parse(expected[i + 1..], output, After(expected[i], offset)));
    }
  }

  lemma PrefixedEmpty(rest: Option<seq<Bytes>>)
    ensures Prefixed([], rest) == rest
  {
    if rest.Some? { assert [] + rest.value == rest.value; }
  }

  lemma PrefixedTwice(a: seq<Bytes>, b: seq<Bytes>, rest: Option<seq<Bytes>>)
    ensures Prefixed(a, Prefixed(b, rest)) == Prefixed(a + b, rest)
  {
    if rest.Some? { assert a + (b + rest.value) == (a + b) + rest.value; }
  }

  // ----- the frames of a request

  type Sizes = map<Bytes, nat>

  predicate Sized(oids: seq<Bytes>, sizes: Sizes) {
    forall oid | oid in oids :: oid in sizes
  }

  function Expectation(oid: Bytes, size: nat): Expected {
    Expected(Header(oid, size), size)
  }

  function Expectations(oids: seq<Bytes>, sizes: Sizes): seq<Expected>
    requires Sized(oids, sizes)
  {
    seq(|oids|, i requires 0 <= i < |oids| => Expectation(oids[i], sizes[oids[i]]))
  }

  /** The bodies by object, for distinct objects. */
  function ByOid(oids: seq<Bytes>, bodies: seq<Bytes>): map<Bytes, Bytes>
    requires |bodies| == |oids|
  {
    if oids == [] then map[] else ByOid(oids[..|oids| - 1],
      bodies[..|oids| - 1])[oids[|oids| - 1] := bodies[|oids| - 1]]
  }

  lemma {:induction false} ByOidExact(oids: seq<Bytes>, bodies: seq<Bytes>)
    requires |bodies| == |oids| && Distinct(oids)
    ensures ByOid(oids, bodies).Keys == ToSet(oids)
    ensures forall i | 0 <= i < |oids| :: oids[i] in ToSet(oids) && ByOid(oids, bodies)[oids[i]] == bodies[i]
  {
    if oids != [] {
      var last := |oids| - 1;
      ByOidExact(oids[..last], bodies[..last]);
      var before := ByOid(oids[..last], bodies[..last]);
      assert ByOid(oids, bodies) == before[oids[last] := bodies[last]];
      assert oids == oids[..last] + [oids[last]];
      assert ToSet(oids) == ToSet(oids[..last]) + {oids[last]};
      forall i | 0 <= i < last ensures ByOid(oids, bodies)[oids[i]] == bodies[i] {
        assert oids[i] == oids[..last][i] && bodies[i] == bodies[..last][i];
        assert oids[i] in ToSet(oids[..last]);
      }
    }
  }

  function AtMost(a: nat, b: nat): nat {
    if a <= b then a else b
  }

  /** `subarray`: a slice whose ends are cut off at the end of the buffer. */
  function Subarray(output: Bytes, from: nat, to: nat): Bytes
    requires from <= to
  {
    output[AtMost(from, |output|)..AtMost(to, |output|)]
  }

  /** One frame: the header must be there, and the body must end in a newline. */
  method ReadFrame(e: Expected, output: Bytes, offset: nat) returns (body: Option<Bytes>)
    ensures body == if FrameAt(e, output, offset) then Some(BodyAt(e, output, offset)) else None
  {
    var start := offset + |e.header|;
    if Subarray(output, offset, start) != e.header { return None; }
    if start + e.size >= |output| || output[start + e.size] != NEWLINE { return None; }
    return Some(Subarray(output, start, start + e.size));
  }

  lemma ByOidStep(oids: seq<Bytes>, i: nat, bodies: seq<Bytes>, body: Bytes)
    requires i < |oids| && |bodies| == i
    ensures ByOid(oids[..i + 1], bodies + [body]) == ByOid(oids[..i], bodies)[oids[i] := body]
  {
    assert oids[..i + 1][..i] == oids[..i] && (bodies + [body])[..i] == bodies;
  }

  /** The parser loop: none when `readBlobs` throws. */
  method ParseFrames(oids: seq<Bytes>, sizes: Sizes, output: Bytes)
    returns (blobs: Option<map<Bytes, Bytes>>, ghost bodies: seq<Bytes>)
    requires Sized(oids, sizes)
    ensures blobs.Some? <==> Parse(Expectations(oids, sizes), output, 0).Some?
    ensures blobs.Some? ==> Parse(Expectations(oids, sizes), output, 0) == Some(bodies) &&
                            |bodies| == |oids| && blobs.value == ByOid(oids, bodies)
  {
    ghost var expected := Expectations(oids, sizes);
    var offset: nat := 0;
    var found := map[];
    bodies := [];
    PrefixedEmpty(Parse(expected, output, 0));
    assert expected[0..] == expected;
    for i := 0 to |oids|
      invariant |bodies| == i && found == ByOid(oids[..i], bodies)
      invariant Parse(expected, output, 0) == Prefixed(bodies, Parse(expected[i..], output, offset))
    {
      var e := Expectation(oids[i], sizes[oids[i]]);
      ParseAdvance(expected, output, i, offset, bodies);
      var body := ReadFrame(e, output, offset);
      if body.None? { return None, bodies; }
      ByOidStep(oids, i, bodies, body.value);
      found, bodies, offset := found[oids[i] := body.value], bodies + [body.value], After(e, offset);
    }
    assert oids[..|oids|] == oids && expected[|oids|..] == [];
    if offset != |output| { return None, bodies; }
    assert bodies + [] == bodies;
    return Some(found), bodies;
  }

  // ----- sizes

  /** The lines answer for exactly these objects, in order, and each of them is a blob with a usable size. */
  predicate MetadataFits(oids: seq<Bytes>, lines: seq<MetadataLine>) {
    |lines| == |oids| && forall i | 0 <= i < |oids| ::
      lines[i].oid == oids[i] && lines[i].kind == "blob" && lines[i].size.Some?
  }

  method ReadMetadata(oids: seq<Bytes>, lines: seq<MetadataLine>) returns (sizes: Option<Sizes>)
    requires Distinct(oids)
    ensures sizes.Some? <==> MetadataFits(oids, lines)
    ensures sizes.Some? ==> sizes.value.Keys == ToSet(oids)
    ensures sizes.Some? ==> forall i | 0 <= i < |oids| ::
      oids[i] in sizes.value && sizes.value[oids[i]] == lines[i].size.value
  {
    if |lines| != |oids| { return None; }
    var found: Sizes := map[];
    for i := 0 to |oids|
      invariant forall j | 0 <= j < i :: lines[j].oid == oids[j] && lines[j].kind == "blob" && lines[j].size.Some?
      invariant found.Keys == ToSet(oids[..i])
      invariant forall j | 0 <= j < i :: oids[j] in found && found[oids[j]] == lines[j].size.value
    {
      if lines[i].oid != oids[i] || lines[i].kind != "blob" || lines[i].size.None? { return None; }
      assert oids[..i + 1] == oids[..i] + [oids[i]];
      found := found[oids[i] := lines[i].size.value];
    }
    assert oids[..|oids|] == oids;
    return Some(found);
  }

  // ----- batches

  predicate IsText(sizes: Sizes, oid: Bytes) {
    oid in sizes && sizes[oid] <= MAX_TEXT_BYTES
  }

  /** The objects a batch asks for: each readable object of its entries once. */
  function Requested(entries: seq<BlobEntry>, sizes: Sizes): seq<Bytes> {
    if entries == [] then []
    else
      Added(Requested(entries[..|entries| - 1], sizes), sizes, entries[|entries| - 1].oid)
  }

  /** The request with one more object: a small enough one is asked for unless it already is. */
  function Added(requested: seq<Bytes>, sizes: Sizes, oid: Bytes): seq<Bytes> {
    if IsText(sizes, oid) && oid !in requested then requested + [oid] else requested
  }

  /** How many bytes the object adds to the answer. */
  function Additional(requested: seq<Bytes>, sizes: Sizes, oid: Bytes): nat {
    if IsText(sizes, oid) && oid !in requested then sizes[oid] else 0
  }

  function Load(oids: seq<Bytes>, sizes: Sizes): nat {
    if oids == [] then 0
    else Load(oids[..|oids| - 1], sizes) + if oids[|oids| - 1] in sizes then sizes[oids[|oids| - 1]] else 0
  }

  lemma {:induction false} RequestedExact(entries: seq<BlobEntry>, sizes: Sizes)
    ensures Distinct(Requested(entries, sizes)) && |Requested(entries, sizes)| <= |entries|
    ensures forall oid :: oid in Requested(entries, sizes) <==> IsText(sizes, oid) && exists e | e in entries ::
      e.oid == oid
  {
    if entries != [] {
      var before, last := entries[..|entries| - 1], entries[|entries| - 1];
      RequestedExact(before, sizes);
      assert entries == before + [last];
      forall oid
        ensures oid in Requested(entries, sizes) <==> IsText(sizes, oid) && exists e | e in entries :: e.oid == oid
      {
        assert (exists e | e in entries :: e.oid == oid) <==>
               (exists e | e in before :: e.oid == oid) || last.oid == oid;
      }
    }
  }

  lemma RequestedStep(entries: seq<BlobEntry>, sizes: Sizes, from: nat, to: nat)
    requires from <= to < |entries|
    ensures var r, oid := Requested(entries[from..to], sizes), entries[to].oid;
            Requested(entries[from..to + 1], sizes) == Added(r, sizes, oid) &&
            Load(Added(r, sizes, oid), sizes) == Load(r, sizes) + Additional(r, sizes, oid)
  {
    var r, oid := Requested(entries[from..to], sizes), entries[to].oid;
    assert entries[from..to + 1][..to - from] == entries[from..to];
    assert (r + [oid])[..|r|] == r;
  }

  /** A batch is as long as both limits allow. */
  predicate Maximal(entries: seq<BlobEntry>, sizes: Sizes, from: nat, to: nat)
    requires from <= to <= |entries|
  {
    to == |entries| || to - from == MAX_BATCH_ENTRIES ||
    Load(Requested(entries[from..to + 1], sizes), sizes) > MAX_BATCH_BYTES
  }

  lemma FirstFits(entries: seq<BlobEntry>, sizes: Sizes, from: nat)
    requires from < |entries|
    ensures Requested(entries[from..from], sizes) == [] && Load([], sizes) == 0
    ensures Additional([], sizes, entries[from].oid) <= MAX_TEXT_BYTES < MAX_BATCH_BYTES
  {
  }

  /** The objects requested for the entries so far, and their total size. */
  ghost predicate Filled(entries: seq<BlobEntry>, sizes: Sizes, from: nat, to: nat, requested: seq<Bytes>, total: nat)
    requires from <= to <= |entries|
  {
    requested == Requested(entries[from..to], sizes) && total == Load(requested, sizes) <= MAX_BATCH_BYTES
  }

  /** One more entry, unless the batch has one already and its object would exceed the limit. */
  method TakeEntry(entries: seq<BlobEntry>, sizes: Sizes, from: nat, cursor: nat, before: seq<Bytes>, total: nat)
    returns (taken: bool, requested: seq<Bytes>, expectedBytes: nat)
    requires from <= cursor < |entries| && Filled(entries, sizes, from, cursor, before, total)
    ensures taken ==> Filled(entries, sizes, from, cursor + 1, requested, expectedBytes)
    ensures !taken ==> cursor > from && requested == before && expectedBytes == total
    ensures !taken ==> Maximal(entries, sizes, from, cursor)
  {
    var oid := entries[cursor].oid;
    var additionalBytes := Additional(before, sizes, oid);
    RequestedStep(entries, sizes, from, cursor);
    if cursor > from && total + additionalBytes > MAX_BATCH_BYTES { return false, before, total; }
    if cursor == from { FirstFits(entries, sizes, from); }
    return true, Added(before, sizes, oid), total + additionalBytes;
  }

  method NextBatch(entries: seq<BlobEntry>, sizes: Sizes, from: nat) returns (to: nat, requested: seq<Bytes>)
    requires from < |entries| && forall e | e in entries :: e.oid in sizes
    ensures from < to <= |entries| && to - from <= MAX_BATCH_ENTRIES
    ensures requested == Requested(entries[from..to], sizes) && Load(requested, sizes) <= MAX_BATCH_BYTES
    ensures Maximal(entries, sizes, from, to)
  {
    var expectedBytes, taken := 0, true;
    to, requested := from, [];
    while taken && to < |entries| && to - from < MAX_BATCH_ENTRIES
      invariant from <= to <= |entries| && to - from <= MAX_BATCH_ENTRIES && (to == from ==> taken)
      invariant Filled(entries, sizes, from, to, requested, expectedBytes)
      invariant !taken ==> Maximal(entries, sizes, from, to)
      decreases |entries| - to, taken
    {
      taken, requested, expectedBytes := TakeEntry(entries, sizes, from, to, requested, expectedBytes);
      if taken { to := to + 1; }
    }
  }

  // ----- the generator

  datatype Yielded = Yielded(entry: BlobEntry, bytes: Option<Bytes>)

  /** Git's answer to the k-th request for object contents. */
  type ContentOracle = (nat, seq<Bytes>) -> Bytes

  /** Each entry with its bytes when the object is small enough to be read. */
  predicate YieldsFrom(entries: seq<BlobEntry>, sizes: Sizes, yielded: seq<Yielded>) {
    |yielded| <= |entries| &&
    forall i | 0 <= i < |yielded| ::
      yielded[i].entry == entries[i] && entries[i].oid in sizes &&
      (yielded[i].bytes.Some? <==> sizes[entries[i].oid] <= MAX_TEXT_BYTES) &&
      (yielded[i].bytes.Some? ==> |yielded[i].bytes.value| == sizes[entries[i].oid])
  }

  /** What each entry must yield from the given object store. */
  function Content(objects: map<Bytes, Bytes>, oid: Bytes): Option<Bytes> {
    if oid in objects && |objects[oid]| <= MAX_TEXT_BYTES then Some(objects[oid]) else None
  }

  predicate YieldsObjects(objects: map<Bytes, Bytes>, yielded: seq<Yielded>) {
    forall y | y in yielded :: y.bytes == Content(objects, y.entry.oid)
  }

  function Bodies(objects: map<Bytes, Bytes>, oids: seq<Bytes>): seq<Bytes>
    requires forall oid | oid in oids :: oid in objects
  {
    seq(|oids|, i requires 0 <= i < |oids| => objects[oids[i]])
  }

  /** The sizes are those of the stored objects. */
  predicate TrueSizes(objects: map<Bytes, Bytes>, sizes: Sizes) {
    forall oid | oid in sizes :: oid in objects && sizes[oid] == |objects[oid]|
  }

  /** The frame of a stored object announces its true length. */
  function StoredFrames(objects: map<Bytes, Bytes>, oids: seq<Bytes>): seq<Expected>
    requires forall oid | oid in oids :: oid in objects
  {
    seq(|oids|, i requires 0 <= i < |oids| => Expectation(oids[i], |objects[oids[i]]|))
  }

  /** Git prints exactly the frames of the stored objects. */
  ghost predicate HonestContents(objects: map<Bytes, Bytes>, git: ContentOracle) {
    forall k: nat, oids: seq<Bytes> | forall oid | oid in oids :: oid in objects ::
      git(k, oids) == Frames(StoredFrames(objects, oids), Bodies(objects, oids))
  }

  /** Request number `k` was answered by a framed output. */
  predicate Answered(sizes: Sizes, git: ContentOracle, requests: seq<seq<Bytes>>, k: nat)
    requires k < |requests|
  {
    Sized(requests[k], sizes) && Parse(Expectations(requests[k], sizes), git(k, requests[k]), 0).Some?
  }

  /** These bytes are the body that the answer to request number `k` frames for the object. */
  ghost predicate FramedAs(sizes: Sizes, git: ContentOracle, requests: seq<seq<Bytes>>, oid: Bytes, body: Bytes) {
    exists k: nat, j: nat :: k < |requests| && j < |requests[k]| &&
      IsBody(sizes, git(k, requests[k]), requests[k], j, oid, body)
  }

  predicate IsBody(sizes: Sizes, output: Bytes, oids: seq<Bytes>, j: nat, oid: Bytes, body: Bytes) {
    Sized(oids, sizes) && j < |oids| && oids[j] == oid &&
    match Parse(Expectations(oids, sizes), output, 0)
    case None => false
    case Some(bodies) => j < |bodies| && bodies[j] == body
  }

  /** All bytes yielded so far come out of the answers so far. */
  ghost predicate BytesFramed(sizes: Sizes, git: ContentOracle, requests: seq<seq<Bytes>>, yielded: seq<Yielded>) {
    forall y | y in yielded && y.bytes.Some? :: FramedAs(sizes, git, requests, y.entry.oid, y.bytes.value)
  }

  /** The blobs that an accepted output holds have the announced sizes. */
  lemma ParsedBlobs(oids: seq<Bytes>, sizes: Sizes, output: Bytes, bodies: seq<Bytes>)
    requires Sized(oids, sizes) && Distinct(oids) && Parse(Expectations(oids, sizes), output, 0) == Some(bodies)
    ensures |bodies| == |oids| && ByOid(oids, bodies).Keys == ToSet(oids)
    ensures forall oid | oid in ToSet(oids) :: |ByOid(oids, bodies)[oid]| == sizes[oid]
  {
    ParseIsSound(Expectations(oids, sizes), output, 0);
    ByOidExact(oids, bodies);
    forall oid | oid in ToSet(oids) ensures |ByOid(oids, bodies)[oid]| == sizes[oid] {
      var j :| 0 <= j < |oids| && oids[j] == oid;
      assert |bodies[j]| == Expectations(oids, sizes)[j].size;
    }
  }

  lemma ParsedBodies(oids: seq<Bytes>, sizes: Sizes, output: Bytes, bodies: seq<Bytes>)
    requires Sized(oids, sizes) && Distinct(oids) && Parse(Expectations(oids, sizes), output, 0) == Some(bodies)
    requires |bodies| == |oids|
    ensures forall oid | oid in ByOid(oids, bodies) ::
      exists j: nat :: IsBody(sizes, output, oids, j, oid, ByOid(oids, bodies)[oid])
  {
    ByOidExact(oids, bodies);
    forall oid | oid in ByOid(oids, bodies)
      ensures exists j: nat :: IsBody(sizes, output, oids, j, oid, ByOid(oids, bodies)[oid])
    {
      assert oid in ToSet(oids);
      var j: nat :| j < |oids| && oids[j] == oid;
      assert IsBody(sizes, output, oids, j, oid, ByOid(oids, bodies)[oid]);
    }
  }

  lemma StoredBlobs(objects: map<Bytes, Bytes>, oids: seq<Bytes>)
    requires Distinct(oids) && forall oid | oid in oids :: oid in objects
    ensures forall oid | oid in oids ::
      oid in ByOid(oids, Bodies(objects, oids)) && ByOid(oids, Bodies(objects, oids))[oid] == objects[oid]
  {
    ByOidExact(oids, Bodies(objects, oids));
    forall oid | oid in oids ensures oid in ToSet(oids) && ByOid(oids, Bodies(objects, oids))[oid] == objects[oid] {
      var j :| 0 <= j < |oids| && oids[j] == oid;
    }
  }

  /** The contents of one request; no request is made when there is nothing to ask for. */
  method FetchBlobs(requested: seq<Bytes>, sizes: Sizes, k: nat, git: ContentOracle, ghost objects: map<Bytes, Bytes>)
    returns (blobs: Option<map<Bytes, Bytes>>)
    requires Distinct(requested) && Sized(requested, sizes)
    ensures blobs.Some? ==>
      blobs.value.Keys == ToSet(requested) && forall oid | oid in ToSet(requested) :: |blobs.value[oid]| == sizes[oid]
    ensures TrueSizes(objects, sizes) && HonestContents(objects, git) ==>
              blobs.Some? && forall oid | oid in requested :: oid in blobs.value && blobs.value[oid] == objects[oid]
    ensures requested != [] ==>
      (blobs.Some? <==> Parse(Expectations(requested, sizes), git(k, requested), 0).Some?)
    ensures blobs.Some? ==> forall oid | oid in blobs.value ::
      exists j: nat :: IsBody(sizes, git(k, requested), requested, j, oid, blobs.value[oid])
    ensures requested == [] ==> blobs.Some?
  {
    if requested == [] { return Some(map[]); }
    var output := git(k, requested);
    ghost var bodies;
    blobs, bodies := ParseFrames(requested, sizes, output);
    if blobs.Some? {
      ParsedBlobs(requested, sizes, output, bodies);
      ParsedBodies(requested, sizes, output, bodies);
    }
    if TrueSizes(objects, sizes) && HonestContents(objects, git) {
      HonestBatchParses(objects, sizes, requested, output);
      StoredBlobs(objects, requested);
    }
  }

  function YieldOf(blobs: map<Bytes, Bytes>, e: BlobEntry): Yielded {
    Yielded(e, if e.oid in blobs then Some(blobs[e.oid]) else None)
  }

  /** The bytes that a batch yields are bodies framed by the answer. */
  ghost predicate AllBodies(sizes: Sizes, output: Bytes, requested: seq<Bytes>, read: seq<Yielded>) {
    forall y | y in read && y.bytes.Some? ::
      exists j: nat :: IsBody(sizes, output, requested, j, y.entry.oid, y.bytes.value)
  }

  method ReadBatch(batch: seq<BlobEntry>, requested: seq<Bytes>, sizes: Sizes, k: nat, git: ContentOracle,
                   ghost objects: map<Bytes, Bytes>)
    returns (yielded: Option<seq<Yielded>>)
    requires requested == Requested(batch, sizes) && forall e | e in batch :: e.oid in sizes
    ensures yielded.Some? ==> |yielded.value| == |batch| && YieldsFrom(batch, sizes, yielded.value)
    ensures TrueSizes(objects, sizes) && HonestContents(objects, git) ==>
              yielded.Some? && YieldsObjects(objects, yielded.value)
    ensures Sized(requested, sizes)
    ensures yielded.None? <==> requested != [] && Parse(Expectations(requested, sizes), git(k, requested), 0).None?
    ensures yielded.Some? ==> AllBodies(sizes, git(k, requested), requested, yielded.value)
  {
    RequestedExact(batch, sizes);
    var blobs := FetchBlobs(requested, sizes, k, git, objects);
    if blobs.None? { return None; }
    var found := blobs.value;
    forall e | e in batch ensures e.oid in found <==> sizes[e.oid] <= MAX_TEXT_BYTES {
      assert e.oid in ToSet(requested) <==> e.oid in requested;
    }
    return Some(seq(|batch|, i requires 0 <= i < |batch| => YieldOf(found, batch[i])));
  }

  lemma HonestBatchParses(objects: map<Bytes, Bytes>, sizes: Sizes, oids: seq<Bytes>, output: Bytes)
    requires Sized(oids, sizes) && TrueSizes(objects, sizes)
    requires output == Frames(StoredFrames(objects, oids), Bodies(objects, oids))
    ensures Parse(Expectations(oids, sizes), output, 0) == Some(Bodies(objects, oids))
  {
    assert Expectations(oids, sizes) == StoredFrames(objects, oids);
    ParseExact(Expectations(oids, sizes), output, Bodies(objects, oids));
  }

  function OidScan(): (nat, BlobEntry) -> seq<Bytes> {
    (_, e: BlobEntry) => [e.oid]
  }

  /** The objects of the entries, once each and in order of first appearance. */
  function ObjectIds(entries: seq<BlobEntry>): seq<Bytes> {
    Dedupe(Collect(entries, OidScan()))
  }

  lemma ObjectIdsCover(entries: seq<BlobEntry>)
    ensures forall e | e in entries :: e.oid in ObjectIds(entries)
  {
    forall e | e in entries ensures e.oid in ObjectIds(entries) {
      var i: nat :| i < |entries| && entries[i] == e;
      CollectMembers(entries, OidScan(), e.oid);
      assert e.oid in OidScan()(i, entries[i]);
    }
  }

  /** The metadata describes the stored objects. */
  predicate HonestMetadata(objects: map<Bytes, Bytes>, oids: seq<Bytes>, lines: seq<MetadataLine>) {
    |lines| == |oids| && forall i | 0 <= i < |oids| ::
      oids[i] in objects && lines[i] == MetadataLine(oids[i], "blob", Some(|objects[oids[i]]|))
  }

  /** Every request asks for at least one object, for none twice, and stays within both limits. */
  predicate RequestsBounded(sizes: Sizes, requests: seq<seq<Bytes>>) {
    forall r | r in requests ::
      1 <= |r| <= MAX_BATCH_ENTRIES && Distinct(r) && Sized(r, sizes) && Load(r, sizes) <= MAX_BATCH_BYTES
  }

  lemma YieldsConcat(entries: seq<BlobEntry>, sizes: Sizes, to: nat, end: nat, done: seq<Yielded>, more: seq<Yielded>)
    requires to <= end <= |entries| && |done| == to && |more| == end - to
    requires YieldsFrom(entries, sizes, done) && YieldsFrom(entries[to..end], sizes, more)
    ensures YieldsFrom(entries, sizes, done + more)
  {
    forall i | to <= i < end
      ensures (done + more)[i] == more[i - to] && entries[to..end][i - to] == entries[i]
    {
    }
  }

  /** Every answer but that to a last, refused request is framed. */
  ghost predicate AnswersSplit(sizes: Sizes, git: ContentOracle, requests: seq<seq<Bytes>>, failed: bool) {
    if failed then
      requests != [] && !Answered(sizes, git, requests, |requests| - 1) &&
      AnswersSplit(sizes, git, requests[..|requests| - 1], false)
    else forall k: nat | k < |requests| :: Answered(sizes, git, requests, k)
  }

  /** The requests after a round that asks for these objects, if any. */
  function Asking(requests: seq<seq<Bytes>>, requested: seq<Bytes>): seq<seq<Bytes>> {
    if requested == [] then requests else requests + [requested]
  }

  /** The answer to the next request is not framed. */
  predicate Refused(sizes: Sizes, git: ContentOracle, requests: seq<seq<Bytes>>, requested: seq<Bytes>)
    requires Sized(requested, sizes)
  {
    requested != [] && Parse(Expectations(requested, sizes), git(|requests|, requested), 0).None?
  }

  lemma OneMoreRequest(sizes: Sizes, git: ContentOracle, requests: seq<seq<Bytes>>, requested: seq<Bytes>)
    requires AnswersSplit(sizes, git, requests, false) && Sized(requested, sizes)
    ensures AnswersSplit(sizes, git, Asking(requests, requested), Refused(sizes, git, requests, requested))
  {
    if requested != [] {
      var more := requests + [requested];
      assert more[..|requests|] == requests;
      forall k: nat | k < |requests| ensures Answered(sizes, git, more, k) {
        assert Answered(sizes, git, requests, k);
      }
    }
  }

  lemma OneMoreBounded(entries: seq<BlobEntry>, sizes: Sizes, requests: seq<seq<Bytes>>)
    requires RequestsBounded(sizes, requests) && |entries| <= MAX_BATCH_ENTRIES
    requires Load(Requested(entries, sizes), sizes) <= MAX_BATCH_BYTES
    ensures RequestsBounded(sizes, Asking(requests, Requested(entries, sizes)))
  {
    RequestedExact(entries, sizes);
  }

  lemma BytesOfOneMore(sizes: Sizes, git: ContentOracle, requests: seq<seq<Bytes>>, more: seq<seq<Bytes>>,
                       done: seq<Yielded>, read: seq<Yielded>, requested: seq<Bytes>)
    requires BytesFramed(sizes, git, requests, done) && Sized(requested, sizes)
    requires more == Asking(requests, requested)
    requires AllBodies(sizes, git(|requests|, requested), requested, read)
    ensures BytesFramed(sizes, git, more, done) && BytesFramed(sizes, git, more, done + read)
  {
    forall y | y in done && y.bytes.Some? ensures FramedAs(sizes, git, more, y.entry.oid, y.bytes.value) {
      assert FramedAs(sizes, git, requests, y.entry.oid, y.bytes.value);
      var k: nat, j: nat :| k < |requests| && j < |requests[k]| &&
        IsBody(sizes, git(k, requests[k]), requests[k], j, y.entry.oid, y.bytes.value);
      assert more[k] == requests[k];
    }
    forall y | y in done + read && y.bytes.Some? ensures FramedAs(sizes, git, more, y.entry.oid, y.bytes.value) {
      if y !in done {
        var j: nat :| IsBody(sizes, git(|requests|, requested), requested, j, y.entry.oid, y.bytes.value);
        assert more[|requests|] == requested;
      }
    }
  }

  /** Batch after batch until the entries are used up or an answer is not accepted. */
  method ReadBatches(entries: seq<BlobEntry>, sizes: Sizes, git: ContentOracle, ghost objects: map<Bytes, Bytes>)
    returns (yielded: seq<Yielded>, failed: bool, requests: seq<seq<Bytes>>)
    requires forall e | e in entries :: e.oid in sizes
    ensures YieldsFrom(entries, sizes, yielded) && RequestsBounded(sizes, requests)
    ensures !failed ==> |yielded| == |entries|
    ensures AnswersSplit(sizes, git, requests, failed) && BytesFramed(sizes, git, requests, yielded)
    ensures TrueSizes(objects, sizes) && HonestContents(objects, git) ==> !failed && YieldsObjects(objects, yielded)
  {
    yielded, failed, requests := [], false, [];
    ghost var honest := TrueSizes(objects, sizes) && HonestContents(objects, git);
    var cursor := 0;
    while cursor < |entries|
      invariant 0 <= cursor <= |entries| && |yielded| == cursor
      invariant YieldsFrom(entries, sizes, yielded) && RequestsBounded(sizes, requests)
      invariant AnswersSplit(sizes, git, requests, false) && BytesFramed(sizes, git, requests, yielded)
      invariant honest ==> YieldsObjects(objects, yielded)
    {
      var more, read;
      cursor, more, read := ReadNext(entries, sizes, cursor, git, objects, requests, yielded);
      requests := more;
      if read.None? { return yielded, true, requests; }
      yielded := read.value;
    }
  }

  /** One round: the next batch, the request it makes if any, and the entries yielded by then. */
  method ReadNext(entries: seq<BlobEntry>, sizes: Sizes, from: nat, git: ContentOracle, ghost objects: map<Bytes,
                  Bytes>,
                  requests: seq<seq<Bytes>>, done: seq<Yielded>)
    returns (to: nat, more: seq<seq<Bytes>>, yielded: Option<seq<Yielded>>)
    requires (forall e | e in entries :: e.oid in sizes) && from == |done| < |entries|
    requires YieldsFrom(entries, sizes, done) && RequestsBounded(sizes, requests)
    requires AnswersSplit(sizes, git, requests, false) && BytesFramed(sizes, git, requests, done)
    ensures from < to <= |entries| && RequestsBounded(sizes, more)
    ensures AnswersSplit(sizes, git, more, yielded.None?) && BytesFramed(sizes, git, more, done)
    ensures yielded.Some? ==> |yielded.value| == to && YieldsFrom(entries, sizes, yielded.value) &&
                              BytesFramed(sizes, git, more, yielded.value)
    ensures TrueSizes(objects, sizes) && HonestContents(objects, git) && YieldsObjects(objects, done) ==>
              yielded.Some? && YieldsObjects(objects, yielded.value)
  {
    var requested;
    to, requested := NextBatch(entries, sizes, from);
    var batch := entries[from..to];
    var read := ReadBatch(batch, requested, sizes, |requests|, git, objects);
    more := Asking(requests, requested);
    OneMoreRequest(sizes, git, requests, requested);
    OneMoreBounded(batch, sizes, requests);
    if read.None? {
      BytesOfOneMore(sizes, git, requests, more, done, [], requested);
      return to, more, None;
    }
    BytesOfOneMore(sizes, git, requests, more, done, read.value, requested);
    YieldsConcat(entries, sizes, from, to, done, read.value);
    yielded := Some(done + read.value);
  }

  /** The sizes that the metadata lines announce. */
  function AnnouncedSizes(oids: seq<Bytes>, lines: seq<MetadataLine>): Sizes
    requires MetadataFits(oids, lines) && Distinct(oids)
  {
    map i | 0 <= i < |oids| :: oids[i] := lines[i].size.value
  }

  /**
   * `readBlobs`: the entries yielded, whether the reader then throws, and the requests made on the way.
   * `objects` is a store that Git may be honest about.
   */
  method ReadBlobs(entries: seq<BlobEntry>, lines: seq<MetadataLine>, git: ContentOracle, ghost objects: map<Bytes,
                   Bytes>)
    returns (yielded: seq<Yielded>, failed: bool, requests: seq<seq<Bytes>>)
    ensures entries == [] ==> yielded == [] && !failed && requests == []
    ensures entries != [] && !MetadataFits(ObjectIds(entries), lines) ==> yielded == [] && failed && requests == []
    ensures entries != [] && MetadataFits(ObjectIds(entries), lines) ==>
      var sizes := AnnouncedSizes(ObjectIds(entries), lines);
      YieldsFrom(entries, sizes, yielded) && RequestsBounded(sizes, requests) &&
      AnswersSplit(sizes, git, requests, failed) && BytesFramed(sizes, git, requests, yielded)
    ensures !failed ==> |yielded| == |entries|
    ensures HonestMetadata(objects, ObjectIds(entries), lines) && HonestContents(objects, git) ==>
              !failed && YieldsObjects(objects, yielded)
  {
    if entries == [] { return [], false, []; }
    var objectIds := ObjectIds(entries);
    var metadata := ReadMetadata(objectIds, lines);
    if metadata.None? { return [], true, []; }
    var sizes := metadata.value;
    assert sizes == AnnouncedSizes(objectIds, lines);
    ObjectIdsCover(entries);
    assert forall e | e in entries :: e.oid in ToSet(objectIds);
    if HonestMetadata(objects, objectIds, lines) { MetadataIsTrue(objects, objectIds, lines, sizes); }
    yielded, failed, requests := ReadBatches(entries, sizes, git, objects);
  }

  lemma MetadataIsTrue(objects: map<Bytes, Bytes>, oids: seq<Bytes>, lines: seq<MetadataLine>, sizes: Sizes)
    requires HonestMetadata(objects, oids, lines) && sizes.Keys == ToSet(oids)
    requires forall i | 0 <= i < |oids| ::
      oids[i] in sizes && lines[i].size.Some? && sizes[oids[i]] == lines[i].size.value
    ensures TrueSizes(objects, sizes)
  {
    forall oid | oid in sizes ensures oid in objects && sizes[oid] == |objects[oid]| {
      assert oid in ToSet(oids);
      var i :| 0 <= i < |oids| && oids[i] == oid;
    }
  }
}
