/** The binary form of diagnostics inside a cache entry, and the entry's frame. */
module DiagnosticCodec {
  import opened Arithmetic
  import Wrappers

  /** Reading and printing of MLIR locations, which this model takes as given. */
  datatype Locations<!L> = Locations(show: L -> seq<Byte>, parse: seq<Byte> -> Wrappers.Option<L>)

  datatype Diagnostic<L> = Diagnostic(severity: Byte, location: L, message: seq<Byte>, notes: seq<Diagnostic<L>>)

  datatype Error = IntCutOff | StringCutOff | DiagnosticCutOff | BadLocation | BadFooter

  /** A value read from the buffer and the position after it. */
  datatype Read<+T> = Ok(value: T, next: nat) | Err(error: Error)

  ghost predicate Inverse<L(!new)>(loc: Locations<L>) {
    forall l :: loc.parse(loc.show(l)) == Wrappers.Some(l)
  }

  // ---- integers -------------------------------------------------------------------------

  function LittleEndian(n: nat, width: nat): (r: seq<Byte>)
    ensures |r| == width
  {
    if width == 0 then [] else [n % 256] + LittleEndian(n / 256, width - 1)
  }

  function FromLittleEndian(s: seq<Byte>): (n: nat) {
    if |s| == 0 then 0 else s[0] + 256 * FromLittleEndian(s[1..])
  }

  function Pow256(n: nat): (p: nat) {
    if n == 0 then 1 else 256 * Pow256(n - 1)
  }

  lemma {:induction false} IntRoundTrip(n: nat, width: nat)
    requires n < Pow256(width)
    ensures FromLittleEndian(LittleEndian(n, width)) == n
  {
    if width == 0 {
    } else {
      IntRoundTrip(n / 256, width - 1);
    }
  }

  /** Sizes are written as `uint64_t`; larger ones do not exist. */
  predicate Fits64(n: nat) {
    n < Pow256(8)
  }

  function Uint64(n: nat): (r: seq<Byte>)
    ensures |r| == 8
  {
    LittleEndian(n, 8)
  }

  function Text(s: seq<Byte>): (r: seq<Byte>)
    ensures |r| == 9 + |s|
  {
    Uint64(|s|) + s + [0]
  }

  /** Byte `i` of a number is its digit `i` in base 256, least significant first. */
  lemma {:induction false} LittleEndianAt(n: nat, width: nat, i: nat)
    requires i < width
    ensures Pow256(i) > 0 && LittleEndian(n, width)[i] == n / Pow256(i) % 256
  {
    if i == 0 {
    } else {
      LittleEndianAt(n / 256, width - 1, i - 1);
      DivideTwice(n, 256, Pow256(i - 1));
    }
  }

  lemma DivideTwice(n: nat, a: nat, b: nat)
    requires a > 0 && b > 0
    ensures a * b > 0 && n / a / b == n / (a * b)
  {
    var q, r := n / a, n % a;
    var q', r' := q / b, q % b;
    Distribute(q' * b, r', a);
    assert n == q' * (a * b) + (r' * a + r) by {
      assert q * a == q' * b * a + r' * a;
      assert q' * b * a == q' * (a * b);
    }
    MulKeepsOrder(r', b - 1, a);
    Distribute(b, 1, a);
    ModuloUnique(n, q', r' * a + r, a * b);
  }

  /** A text is its length in eight bytes, the text itself, and a zero byte. */
  lemma TextBytes(s: seq<Byte>, i: nat)
    ensures i < 8 ==> Pow256(i) > 0 && Text(s)[i] == |s| / Pow256(i) % 256
    ensures i < |s| ==> Text(s)[8 + i] == s[i]
    ensures Text(s)[8 + |s|] == 0
  {
    hide LittleEndian;
    if i < 8 {
      LittleEndianAt(|s|, 8, i);
    }
  }

  // ---- encoder ----------------------------------------------------------------------------

  function EncodeAll<L>(ds: seq<Diagnostic<L>>, loc: Locations<L>): (r: seq<Byte>)
    decreases ds, 2
  {
    Uint64(|ds|) + EncodeEach(ds, loc)
  }

  function EncodeEach<L>(ds: seq<Diagnostic<L>>, loc: Locations<L>): (r: seq<Byte>)
    decreases ds, 1
  {
    if |ds| == 0 then [] else EncodeOne(ds[0], loc) + EncodeEach(ds[1..], loc)
  }

  function EncodeOne<L>(d: Diagnostic<L>, loc: Locations<L>): (r: seq<Byte>)
    decreases d, 0
  {
    [d.severity] + (Text(loc.show(d.location)) + (Text(d.message) + EncodeAll(d.notes, loc)))
  }

  /** Every size in the forest fits its field. */
  ghost predicate Encodable<L>(ds: seq<Diagnostic<L>>, loc: Locations<L>)
    decreases ds
  {
    && Fits64(|ds|)
    && forall i | 0 <= i < |ds| ::
         Fits64(|loc.show(ds[i].location)|) && Fits64(|ds[i].message|) && Encodable(ds[i].notes, loc)
  }

  function Nodes<L>(ds: seq<Diagnostic<L>>): (n: nat)
    decreases ds
  {
    if |ds| == 0 then 0 else 1 + Nodes(ds[0].notes) + Nodes(ds[1..])
  }

  // ---- decoder ------------------------------------------------------------------------------

  function ReadInt(data: seq<Byte>, pos: nat): (r: Read<nat>)
    requires pos <= |data|
    ensures r.Ok? ==> r.next == pos + 8 <= |data|
  {
    if pos + 8 > |data| then Err(IntCutOff) else Ok(FromLittleEndian(data[pos..pos + 8]), pos + 8)
  }

  function ReadText(data: seq<Byte>, pos: nat): (r: Read<seq<Byte>>)
    requires pos <= |data|
    ensures r.Ok? ==> pos + 9 <= r.next <= |data|
  {
    match ReadInt(data, pos)
    case Err(e) => Err(e)
    case Ok(size, p) => if p + size + 1 > |data| then Err(StringCutOff) else Ok(data[p..p + size], p + size + 1)
  }

  /**
    Decoding terminates on every byte string and stays inside it: each list takes at least 8 bytes
    plus 27 for every node it yields.
   */
  function DecodeAll<L>(data: seq<Byte>, pos: nat, loc: Locations<L>): (r: Read<seq<Diagnostic<L>>>)
    requires pos <= |data|
    ensures r.Ok? ==> pos + 8 + 27 * Nodes(r.value) <= r.next <= |data|
    decreases |data| - pos, 2
  {
    match ReadInt(data, pos)
    case Err(e) => Err(e)
    case Ok(n, p) => DecodeEach(data, p, n, loc)
  }

  function DecodeEach<L>(data: seq<Byte>, pos: nat, n: nat, loc: Locations<L>): (r: Read<seq<Diagnostic<L>>>)
    requires pos <= |data|
    ensures r.Ok? ==> |r.value| == n && pos + 27 * Nodes(r.value) <= r.next <= |data|
    decreases |data| - pos, 1
  {
    if n == 0 then Ok([], pos)
    else
      match DecodeOne(data, pos, loc)
      case Err(e) => Err(e)
      case Ok(d, p) =>
        match DecodeEach(data, p, n - 1, loc)
        case Err(e) => Err(e)
        case Ok(rest, q) =>
          assert ([d] + rest)[1..] == rest;
          Ok([d] + rest, q)
  }

  function DecodeOne<L>(data: seq<Byte>, pos: nat, loc: Locations<L>): (r: Read<Diagnostic<L>>)
    requires pos <= |data|
    ensures r.Ok? ==> pos + 27 + 27 * Nodes(r.value.notes) <= r.next <= |data|
    decreases |data| - pos, 0
  {
    if pos == |data| then Err(DiagnosticCutOff)
    else
      match ReadText(data, pos + 1)
      case Err(e) => Err(e)
      case Ok(text, p) =>
        match loc.parse(text)
        case None => Err(BadLocation)
        case Some(location) =>
          match ReadText(data, p)
          case Err(e) => Err(e)
          case Ok(message, q) =>
            match DecodeAll(data, q, loc)
            case Err(e) => Err(e)
            case Ok(notes, t) => Ok(Diagnostic(data[pos], location, message, notes), t)
  }

  // ---- round trip -------------------------------------------------------------------------------

  /** The bytes `s` are found at `pos`. */
  predicate Holds(data: seq<Byte>, pos: nat, s: seq<Byte>) {
    pos + |s| <= |data| && data[pos..pos + |s|] == s
  }

  lemma HoldsParts(data: seq<Byte>, pos: nat, a: seq<Byte>, b: seq<Byte>)
    requires Holds(data, pos, a + b)
    ensures Holds(data, pos, a) && Holds(data, pos + |a|, b)
  {
    var whole := data[pos..pos + |a + b|];
    assert data[pos..pos + |a|] == whole[..|a|] == a;
    assert data[pos + |a|..pos + |a| + |b|] == whole[|a|..] == b;
  }

  lemma ReadsInt(data: seq<Byte>, pos: nat, n: nat)
    requires Fits64(n) && Holds(data, pos, Uint64(n))
    ensures ReadInt(data, pos) == Ok(n, pos + 8)
  {
    IntRoundTrip(n, 8);
  }

  lemma ReadsText(data: seq<Byte>, pos: nat, s: seq<Byte>)
    requires Fits64(|s|) && Holds(data, pos, Text(s))
    ensures ReadText(data, pos) == Ok(s, pos + 9 + |s|)
  {
    hide FromLittleEndian, LittleEndian, Pow256;
    HoldsParts(data, pos, Uint64(|s|) + s, [0]);
    HoldsParts(data, pos, Uint64(|s|), s);
    ReadsInt(data, pos, |s|);
  }

  lemma EncodableParts<L>(ds: seq<Diagnostic<L>>, loc: Locations<L>)
    requires Encodable(ds, loc) && |ds| > 0
    ensures Encodable(ds[1..], loc) && Encodable(ds[0].notes, loc)
    ensures Fits64(|loc.show(ds[0].location)|) && Fits64(|ds[0].message|)
  {
  }

  /** What was encoded is what is decoded, wherever it stands in the data and whatever follows it. */
  lemma {:induction false} DecodesAll<L(!new)>(data: seq<Byte>, pos: nat, ds: seq<Diagnostic<L>>, loc: Locations<L>)
    requires Inverse(loc) && Encodable(ds, loc) && Holds(data, pos, EncodeAll(ds, loc))
    ensures DecodeAll(data, pos, loc) == Ok(ds, pos + |EncodeAll(ds, loc)|)
    decreases ds, 2
  {
    HoldsParts(data, pos, Uint64(|ds|), EncodeEach(ds, loc));
    ReadsInt(data, pos, |ds|);
    DecodesEach(data, pos + 8, ds, loc);
  }

  lemma EncodeEachStep<L>(ds: seq<Diagnostic<L>>, loc: Locations<L>)
    ensures if |ds| == 0 then EncodeEach(ds, loc) == []
            else EncodeEach(ds, loc) == EncodeOne(ds[0], loc) + EncodeEach(ds[1..], loc)
  {
    hide EncodeOne;
  }

  /** One round of the count loop, then the rest. */
  lemma DecodeEachStep<L>(data: seq<Byte>, pos: nat, ds: seq<Diagnostic<L>>, loc: Locations<L>, next: nat, end: nat)
    requires |ds| > 0 && pos <= |data| && next <= |data| && DecodeOne(data, pos, loc) == Ok(ds[0], next)
    requires DecodeEach(data, next, |ds| - 1, loc) == Ok(ds[1..], end)
    ensures DecodeEach(data, pos, |ds|, loc) == Ok(ds, end)
  {
    hide DecodeOne;
    assert [ds[0]] + ds[1..] == ds;
  }

  lemma DecodeEachNone<L>(data: seq<Byte>, pos: nat, loc: Locations<L>)
    requires pos <= |data|
    ensures DecodeEach(data, pos, 0, loc) == Ok([], pos)
  {
  }

  lemma HoldsInside(data: seq<Byte>, pos: nat, s: seq<Byte>)
    requires Holds(data, pos, s)
    ensures pos + |s| <= |data|
  {
  }

  lemma {:induction false} DecodesEach<L(!new)>(data: seq<Byte>, pos: nat, ds: seq<Diagnostic<L>>, loc: Locations<L>)
    requires Inverse(loc) && Encodable(ds, loc) && Holds(data, pos, EncodeEach(ds, loc))
    ensures DecodeEach(data, pos, |ds|, loc) == Ok(ds, pos + |EncodeEach(ds, loc)|)
    decreases ds, 1
  {
    hide EncodeOne, EncodeEach, DecodeOne, DecodeEach, Encodable, Fits64, Holds, Nodes, Inverse;
    EncodeEachStep(ds, loc);
    HoldsInside(data, pos, EncodeEach(ds, loc));
    if |ds| == 0 {
      DecodeEachNone(data, pos, loc);
    } else {
      var first, rest := EncodeOne(ds[0], loc), EncodeEach(ds[1..], loc);
      EncodableParts(ds, loc);
      HoldsParts(data, pos, first, rest);
      HoldsInside(data, pos, first);
      DecodesOne(data, pos, ds[0], loc);
      DecodesEach(data, pos + |first|, ds[1..], loc);
      DecodeEachStep(data, pos, ds, loc, pos + |first|, pos + |first| + |rest|);
    }
  }

  lemma {:induction false} DecodesOne<L(!new)>(data: seq<Byte>, pos: nat, d: Diagnostic<L>, loc: Locations<L>)
    requires Inverse(loc) && Fits64(|loc.show(d.location)|) && Fits64(|d.message|) && Encodable(d.notes, loc)
    requires Holds(data, pos, EncodeOne(d, loc))
    ensures DecodeOne(data, pos, loc) == Ok(d, pos + |EncodeOne(d, loc)|)
    decreases d, 0
  {
    hide ReadText, Text, Fits64, DecodeAll, EncodeAll, Encodable, Nodes;
    var where, notes := Text(loc.show(d.location)), EncodeAll(d.notes, loc);
    HoldsParts(data, pos, [d.severity], where + (Text(d.message) + notes));
    HoldsParts(data, pos + 1, where, Text(d.message) + notes);
    HoldsParts(data, pos + 1 + |where|, Text(d.message), notes);
    ReadsText(data, pos + 1, loc.show(d.location));
    ReadsText(data, pos + 1 + |where|, d.message);
    DecodesAll(data, pos + 1 + |where| + |Text(d.message)|, d.notes, loc);
    assert data[pos..pos + 1][0] == d.severity;
  }

  /** Where the parts of an encoded diagnostic stand. */
  lemma OneLayout<L>(d: Diagnostic<L>, loc: Locations<L>)
    ensures var r, where := EncodeOne(d, loc), loc.show(d.location);
            && Holds(r, 0, [d.severity])
            && Holds(r, 1, Text(where))
            && Holds(r, 10 + |where|, Text(d.message))
            && Holds(r, 19 + |where| + |d.message|, EncodeAll(d.notes, loc))
            && |r| == 19 + |where| + |d.message| + |EncodeAll(d.notes, loc)|
  {
    hide Text, EncodeAll;
    var where, message, notes := Text(loc.show(d.location)), Text(d.message), EncodeAll(d.notes, loc);
    var r := EncodeOne(d, loc);
    assert r[..|r|] == r;
    HoldsParts(r, 0, [d.severity], where + (message + notes));
    HoldsParts(r, 1, where, message + notes);
    HoldsParts(r, 1 + |where|, message, notes);
  }

  lemma HoldsWithin(data: seq<Byte>, pos: nat, whole: seq<Byte>, at: nat, part: seq<Byte>)
    requires Holds(data, pos, whole) && Holds(whole, at, part)
    ensures Holds(data, pos + at, part)
  {
    var here := data[pos + at..pos + at + |part|];
    forall k | 0 <= k < |part| ensures here[k] == part[k] {
      assert whole[at..at + |part|][k] == whole[at + k] == data[pos..pos + |whole|][at + k];
    }
  }

  /** And the diagnostics of a list: their number, then one after the other without gaps. */
  lemma EachLayout<L>(ds: seq<Diagnostic<L>>, i: nat, loc: Locations<L>)
    requires i < |ds|
    ensures Holds(EncodeAll(ds, loc), 0, Uint64(|ds|))
    ensures Holds(EncodeAll(ds, loc), 8 + |EncodeEach(ds[..i], loc)|, EncodeOne(ds[i], loc))
  {
    hide EncodeOne, EncodeEach, Uint64;
    var r := EncodeAll(ds, loc);
    assert r[..|r|] == r;
    HoldsParts(r, 0, Uint64(|ds|), EncodeEach(ds, loc));
    EachAt(ds, i, loc);
    HoldsWithin(r, 8, EncodeEach(ds, loc), |EncodeEach(ds[..i], loc)|, EncodeOne(ds[i], loc));
  }

  lemma {:induction false} EachAt<L>(ds: seq<Diagnostic<L>>, i: nat, loc: Locations<L>)
    requires i < |ds|
    ensures Holds(EncodeEach(ds, loc), |EncodeEach(ds[..i], loc)|, EncodeOne(ds[i], loc))
  {
    hide EncodeOne;
    EncodeEachStep(ds, loc);
    var first, rest := EncodeOne(ds[0], loc), EncodeEach(ds[1..], loc);
    if i == 0 {
      assert ds[..0] == [];
    } else {
      EachAt(ds[1..], i - 1, loc);
      EncodeEachStep(ds[..i], loc);
      assert ds[..i][1..] == ds[1..][..i - 1];
    }
  }

  // ---- the loops ------------------------------------------------------------------------------

  class Buffer {
    var bytes: seq<Byte>

    constructor ()
      ensures bytes == []
    {
      bytes := [];
    }

    method Append(s: seq<Byte>)
      modifies this
      ensures bytes == old(bytes) + s
    {
      bytes := bytes + s;
    }
  }

  lemma {:induction false} EncodeEachAppends<L>(ds: seq<Diagnostic<L>>, i: nat, loc: Locations<L>)
    requires i < |ds|
    ensures EncodeEach(ds[..i + 1], loc) == EncodeEach(ds[..i], loc) + EncodeOne(ds[i], loc)
  {
    if i == 0 {
      assert ds[..1][1..] == [] && ds[..0] == [];
    } else {
      assert ds[..i + 1][1..] == ds[1..][..i] && ds[..i][1..] == ds[1..][..i - 1];
      EncodeEachAppends(ds[1..], i - 1, loc);
    }
  }

  lemma Regroup(x: seq<Byte>, a: seq<Byte>, b: seq<Byte>, c: seq<Byte>, d: seq<Byte>)
    ensures x + a + b + c + d == x + (a + (b + (c + d)))
  {
  }

  lemma RegroupTail(x: seq<Byte>, a: seq<Byte>, b: seq<Byte>, c: seq<Byte>)
    ensures x + (a + b) + c == x + (a + (b + c))
  {
  }

  /** `encodeDiagnostics`. */
  method EncodeDiagnostics<L>(ds: seq<Diagnostic<L>>, loc: Locations<L>, buf: Buffer)
    modifies buf
    ensures buf.bytes == old(buf.bytes) + EncodeAll(ds, loc)
    decreases ds
  {
    buf.Append(Uint64(|ds|));
    for i := 0 to |ds|
      invariant buf.bytes == old(buf.bytes) + (Uint64(|ds|) + EncodeEach(ds[..i], loc))
    {
      hide EncodeEach, Text, Uint64;
      ghost var before := buf.bytes;
      buf.Append([ds[i].severity]);
      buf.Append(Text(loc.show(ds[i].location)));
      buf.Append(Text(ds[i].message));
      EncodeDiagnostics(ds[i].notes, loc, buf);
      Regroup(before, [ds[i].severity], Text(loc.show(ds[i].location)), Text(ds[i].message),
              EncodeAll(ds[i].notes, loc));
      EncodeEachAppends(ds, i, loc);
      RegroupTail(old(buf.bytes), Uint64(|ds|), EncodeEach(ds[..i], loc), EncodeOne(ds[i], loc));
    }
    assert ds[..|ds|] == ds;
  }

  /** `done` diagnostics already decoded, followed by what the rest of the loop yields. */
  function Onto<L>(done: seq<Diagnostic<L>>, rest: Read<seq<Diagnostic<L>>>): (r: Read<seq<Diagnostic<L>>>) {
    match rest case Err(e) => Err(e) case Ok(v, p) => Ok(done + v, p)
  }

  lemma OntoStep<L>(data: seq<Byte>, pos: nat, n: nat, loc: Locations<L>, done: seq<Diagnostic<L>>)
    requires pos <= |data| && n > 0
    ensures var one := DecodeOne(data, pos, loc);
            match one
            case Err(e) => Onto(done, DecodeEach(data, pos, n, loc)) == Err(e)
            case Ok(d, p) =>
              Onto(done, DecodeEach(data, pos, n, loc)) == Onto(done + [d], DecodeEach(data, p, n - 1, loc))
  {
    hide DecodeOne;
    match DecodeOne(data, pos, loc)
    case Err(_) =>
    case Ok(d, p) =>
      match DecodeEach(data, p, n - 1, loc)
      case Err(_) =>
      case Ok(rest, _) => assert done + ([d] + rest) == (done + [d]) + rest;
  }

  lemma OntoNothing<L>(r: Read<seq<Diagnostic<L>>>)
    ensures Onto([], r) == r
  {
    if r.Ok? {
      assert [] + r.value == r.value;
    }
  }

  /** `decodeDiagnostics`: a counted loop that moves the cursor, with the body below. */
  method DecodeDiagnostics<L>(data: seq<Byte>, start: nat, loc: Locations<L>) returns (r: Read<seq<Diagnostic<L>>>)
    requires start <= |data|
    ensures r == DecodeAll(data, start, loc)
    decreases |data| - start, 1
  {
    hide DecodeOne, DecodeEach, Nodes;
    var count := ReadInt(data, start);
    if count.Err? {
      return Err(count.error);
    }
    var dataIt, n := count.next, count.value;
    var diagnostics: seq<Diagnostic<L>> := [];
    OntoNothing(DecodeEach(data, dataIt, n, loc));
    for i := 0 to n
      invariant start + 8 <= dataIt <= |data|
      invariant DecodeAll(data, start, loc) == Onto(diagnostics, DecodeEach(data, dataIt, n - i, loc))
    {
      OntoStep(data, dataIt, n - i, loc, diagnostics);
      var one := DecodeDiagnostic(data, dataIt, loc);
      if one.Err? {
        return Err(one.error);
      }
      diagnostics := diagnostics + [one.value];
      dataIt := one.next;
    }
    OntoEnd(data, dataIt, loc, diagnostics);
    r := Ok(diagnostics, dataIt);
  }

  lemma OntoEnd<L>(data: seq<Byte>, pos: nat, loc: Locations<L>, done: seq<Diagnostic<L>>)
    requires pos <= |data|
    ensures Onto(done, DecodeEach(data, pos, 0, loc)) == Ok(done, pos)
  {
    assert done + [] == done;
  }

  /** One round of that loop: severity, location, message, and the notes by recursion. */
  method DecodeDiagnostic<L>(data: seq<Byte>, start: nat, loc: Locations<L>) returns (r: Read<Diagnostic<L>>)
    requires start <= |data|
    ensures r == DecodeOne(data, start, loc)
    decreases |data| - start, 0
  {
    hide DecodeAll, ReadText, Nodes;
    if start == |data| {
      return Err(DiagnosticCutOff);
    }
    var severity := data[start];
    var where := ReadText(data, start + 1);
    if where.Err? {
      return Err(where.error);
    }
    var location := loc.parse(where.value);
    if location.None? {
      return Err(BadLocation);
    }
    var message := ReadText(data, where.next);
    if message.Err? {
      return Err(message.error);
    }
    var notes := DecodeDiagnostics(data, message.next, loc);
    if notes.Err? {
      return Err(notes.error);
    }
    r := Ok(Diagnostic(severity, location.value, message.value, notes.value), notes.next);
  }

  // ---- the cache entry ----------------------------------------------------------------------------

  /** What a miss stores: bytecode, diagnostics, and the bytecode's size as a footer. */
  method WriteEntry<L>(bytecode: seq<Byte>, ds: seq<Diagnostic<L>>, loc: Locations<L>) returns (entry: seq<Byte>)
    ensures entry == Entry(bytecode, ds, loc)
  {
    var buf := new Buffer();
    buf.Append(bytecode);
    var bufSize := |buf.bytes|;
    EncodeDiagnostics(ds, loc, buf);
    buf.Append(Uint64(bufSize));
    entry := buf.bytes;
  }

  function Entry<L>(bytecode: seq<Byte>, ds: seq<Diagnostic<L>>, loc: Locations<L>): (r: seq<Byte>) {
    bytecode + EncodeAll(ds, loc) + Uint64(|bytecode|)
  }

  /** What a hit recovers: bytecode and diagnostics, in order. */
  function OnHit<L>(entry: seq<Byte>, loc: Locations<L>): (r: Read<(seq<Byte>, seq<Diagnostic<L>>)>) {
    if |entry| < 8 then Err(BadFooter)
    else
      var size := FromLittleEndian(entry[|entry| - 8..]);
      if size > |entry| then Err(BadFooter)
      else
        match DecodeAll(entry[size..], 0, loc)
        case Err(e) => Err(e)
        case Ok(ds, p) => Ok((entry[..size], ds), p)
  }

  /** A hit on an entry that a miss wrote gives back exactly what was written. */
  lemma EntryRoundTrip<L(!new)>(bytecode: seq<Byte>, ds: seq<Diagnostic<L>>, loc: Locations<L>)
    requires Inverse(loc) && Encodable(ds, loc) && Fits64(|bytecode|)
    ensures OnHit(Entry(bytecode, ds, loc), loc) == Ok((bytecode, ds), |EncodeAll(ds, loc)|)
  {
    hide EncodeAll, Encodable, DecodeAll, FromLittleEndian, LittleEndian, Fits64;
    var entry, body := Entry(bytecode, ds, loc), EncodeAll(ds, loc);
    assert entry[|entry| - 8..] == Uint64(|bytecode|);
    FooterRoundTrip(|bytecode|);
    assert entry[..|bytecode|] == bytecode;
    var rest := entry[|bytecode|..];
    assert rest == body + Uint64(|bytecode|);
    assert rest[0..|body|] == body;
    DecodesAll(rest, 0, ds, loc);
  }

  /** A hit succeeds exactly on bytecode, well-formed diagnostics and a footer that is the bytecode's size. */
  lemma HitIff<L>(entry: seq<Byte>, bytecode: seq<Byte>, ds: seq<Diagnostic<L>>, end: nat, loc: Locations<L>)
    ensures OnHit(entry, loc) == Ok((bytecode, ds), end) <==>
            exists before, rest ::
              && entry == before + Uint64(|bytecode|) && entry == bytecode + rest
              && DecodeAll(rest, 0, loc) == Ok(ds, end) && Fits64(|bytecode|)
  {
    hide DecodeAll, Fits64, LittleEndian, FromLittleEndian;
    if OnHit(entry, loc) == Ok((bytecode, ds), end) {
      var n := |entry| - 8;
      FooterReads(entry[n..]);
      assert entry == entry[..n] + entry[n..] && entry == bytecode + entry[|bytecode|..];
    }
    if before, rest :| && entry == before + Uint64(|bytecode|) && entry == bytecode + rest
                       && DecodeAll(rest, 0, loc) == Ok(ds, end) && Fits64(|bytecode|) {
      FooterRoundTrip(|bytecode|);
      assert entry[|entry| - 8..] == Uint64(|bytecode|);
      assert entry[..|bytecode|] == bytecode && entry[|bytecode|..] == rest;
    }
  }

  lemma {:induction false} IntIsItsBytes(s: seq<Byte>)
    ensures FromLittleEndian(s) < Pow256(|s|) && LittleEndian(FromLittleEndian(s), |s|) == s
  {
    if |s| == 0 {
    } else {
      var rest := FromLittleEndian(s[1..]);
      IntIsItsBytes(s[1..]);
      ModuloUnique(s[0] + 256 * rest, rest, s[0], 256);
      assert [s[0]] + s[1..] == s;
    }
  }

  lemma FooterReads(s: seq<Byte>)
    requires |s| == 8
    ensures Fits64(FromLittleEndian(s)) && Uint64(FromLittleEndian(s)) == s
  {
    hide LittleEndian, FromLittleEndian, Pow256;
    IntIsItsBytes(s);
  }

  lemma FooterRoundTrip(n: nat)
    requires Fits64(n)
    ensures FromLittleEndian(Uint64(n)) == n
  {
    IntRoundTrip(n, 8);
  }
}
