/**
 The SRW1 weight format of a super-resolution net: its printer, its parser, and how they fit.

 Weights are 32-bit words; what a word means as a floating-point number plays no part in the format.
 */
module Srw1 {
  import opened VideoFormat
  import opened RtpTime

  const MAGIC := 0x31575253
  const CONV := 0
  const SHUFFLE := 1
  const PRELU := 1
  const MAX_LAYERS := 64
  const LAYER_HEADER := 24
  const FILE_HEADER := 16

  datatype Error =
    | Truncated
    | BadMagic
    | BadVersion
    | BadScale
    | BadLayerCount
    | ChannelMismatch(layer: nat)
    | BadConvShape(layer: nat)
    | ShuffleNotLast(layer: nat)
    | ShuffleHasWeights(layer: nat)
    | UnknownKind(layer: nat)
    | NotTerminated
    | TrailingBytes

  datatype Result<+T> = Ok(value: T) | Err(error: Error)

  datatype Header = Header(kind: U32, k: U32, cin: U32, cout: U32, act: U32, hasBias: U32)

  /** A layer as the engine holds it: convolution weights in OIHW order, empty lists for what it does not have. */
  datatype Layer = Layer(kind: U32, k: U32, cin: U32, cout: U32, act: U32, w: seq<U32>, bias: seq<U32>, alpha: seq<U32>)

  // ----- Little-endian words -----

  function Le32(v: U32): (b: seq<Byte>)
    ensures |b| == 4
  {
    [v % 256, v / 256 % 256, v / 0x1_0000 % 256, v / 0x100_0000]
  }

  function Word(d: seq<Byte>, off: nat): U32
    requires off + 4 <= |d|
  {
    (d[off] as int) + (d[off + 1] as int) * 256 + (d[off + 2] as int) * 0x1_0000 + (d[off + 3] as int) * 0x100_0000
  }

  function Words(d: seq<Byte>, off: nat, count: nat): (ws: seq<U32>)
    requires off + 4 * count <= |d|
    ensures |ws| == count
  {
    seq(count, i requires 0 <= i < count => Word(d, off + 4 * i))
  }

  function Bytes(ws: seq<U32>): (b: seq<Byte>)
    ensures |b| == 4 * |ws|
  {
    if ws == [] then [] else Le32(ws[0]) + Bytes(ws[1..])
  }

  lemma {:induction false} WordOfLe32(v: U32)
    ensures Word(Le32(v), 0) == v
  {
    var a, b := v / 256, v / 0x1_0000;
    assert v == a * 256 + v % 256 && a == b * 256 + a % 256 && b == v / 0x100_0000 * 256 + b % 256;
    assert a % 256 == v / 256 % 256;
  }

  /** Reading a word does not depend on what is around it. */
  lemma {:induction false} WordInside(pre: seq<Byte>, mid: seq<Byte>, post: seq<Byte>, off: nat)
    requires off + 4 <= |mid|
    ensures Word(pre + mid + post, |pre| + off) == Word(mid, off)
  {
    var d := pre + mid + post;
    forall i | off <= i < off + 4
      ensures d[|pre| + i] == mid[i]
    {
    }
  }

  lemma {:induction false} WordOfBytes(ws: seq<U32>, i: nat)
    requires i < |ws|
    ensures Word(Bytes(ws), 4 * i) == ws[i]
  {
    if i == 0 {
      WordOfLe32(ws[0]);
      WordInside([], Le32(ws[0]), Bytes(ws[1..]), 0);
      assert [] + Le32(ws[0]) + Bytes(ws[1..]) == Bytes(ws);
    } else {
      WordOfBytes(ws[1..], i - 1);
      WordInside(Le32(ws[0]), Bytes(ws[1..]), [], 4 * (i - 1));
      assert Le32(ws[0]) + Bytes(ws[1..]) + [] == Bytes(ws);
    }
  }

  /** Printed words read back, wherever they stand in a blob. */
  lemma {:induction false} WordsOfBytes(pre: seq<Byte>, ws: seq<U32>, post: seq<Byte>)
    ensures Words(pre + Bytes(ws) + post, |pre|, |ws|) == ws
  {
    var d := pre + Bytes(ws) + post;
    forall i | 0 <= i < |ws|
      ensures Word(d, |pre| + 4 * i) == ws[i]
    {
      WordOfBytes(ws, i);
      WordInside(pre, Bytes(ws), post, 4 * i);
    }
  }

  lemma {:induction false} BytesAppend(a: seq<U32>, b: seq<U32>)
    ensures Bytes(a + b) == Bytes(a) + Bytes(b)
  {
    if a == [] {
      assert a + b == b;
    } else {
      BytesAppend(a[1..], b);
      assert (a + b)[1..] == a[1..] + b && (a + b)[0] == a[0];
      AppendAssoc(Le32(a[0]), Bytes(a[1..]), Bytes(b));
    }
  }

  lemma {:induction false} AppendAssoc(x: seq<Byte>, y: seq<Byte>, z: seq<Byte>)
    ensures x + (y + z) == x + y + z
  {
  }

  // ----- The parser -----

  function HeaderAt(d: seq<Byte>, off: nat): Header
    requires off + LAYER_HEADER <= |d|
  {
    Header(Word(d, off), Word(d, off + 4), Word(d, off + 8), Word(d, off + 12), Word(d, off + 16), Word(d, off + 20))
  }

  function TakeWords(d: seq<Byte>, off: nat, count: nat): Result<seq<U32>> {
    if off + 4 * count > |d| then Err(Truncated) else Ok(Words(d, off, count))
  }

  function WeightCount(k: nat, cin: nat, cout: nat): nat {
    cout * cin * k * k
  }

  predicate ConvShape(k: nat, cin: nat, cout: nat) {
    0 < k <= 9 && k % 2 == 1 && cin <= 256 && 0 < cout <= 256
  }

  /** The channels that the next layer must take: one, the luma plane, at first. */
  function LastOut(layers: seq<Layer>): U32 {
    if layers == [] then 1 else layers[|layers| - 1].cout
  }

  function ParseConv(d: seq<Byte>, h: Header, off: nat): Result<(Layer, nat)> {
    var w := TakeWords(d, off, WeightCount(h.k, h.cin, h.cout));
    if w.Err? then Err(w.error)
    else
      var off1 := off + 4 * |w.value|;
      var bias := if h.hasBias != 0 then TakeWords(d, off1, h.cout) else Ok([]);
      if bias.Err? then Err(bias.error)
      else
        var off2 := off1 + 4 * |bias.value|;
        var alpha := if h.act == PRELU then TakeWords(d, off2, h.cout) else Ok([]);
        if alpha.Err? then Err(alpha.error)
        else
          Ok((Layer(h.kind, h.k, h.cin, h.cout, h.act, w.value, bias.value, alpha.value), off2 + 4 * |alpha.value|))
  }

  /** Layer `|done|` of `n` at `off`, and the offset after it. */
  function ParseLayer(d: seq<Byte>, n: nat, done: seq<Layer>, off: nat): Result<(Layer, nat)> {
    if off + LAYER_HEADER > |d| then Err(Truncated)
    else
      var h, i := HeaderAt(d, off), |done|;
      if h.cin != LastOut(done) then Err(ChannelMismatch(i))
      else if h.kind == CONV then
        if !ConvShape(h.k, h.cin, h.cout) then Err(BadConvShape(i)) else ParseConv(d, h, off + LAYER_HEADER)
      else if h.kind == SHUFFLE then
        if i + 1 != n || h.cin != 4 || h.cout != 1 then Err(ShuffleNotLast(i))
        else if h.hasBias != 0 || h.act == PRELU then Err(ShuffleHasWeights(i))
        else Ok((Layer(h.kind, h.k, h.cin, h.cout, h.act, [], [], []), off + LAYER_HEADER))
      else Err(UnknownKind(i))
  }

  /** The rest of a net of `n` layers, once `done` are parsed and `off` octets are used. */
  function ParseFrom(d: seq<Byte>, n: nat, done: seq<Layer>, off: nat): Result<seq<Layer>>
    requires 0 < n && |done| <= n
    decreases n - |done|
  {
    if |done| == n then
      if done[n - 1].kind != SHUFFLE then Err(NotTerminated)
      else if off != |d| then Err(TrailingBytes)
      else Ok(done)
    else
      var r := ParseLayer(d, n, done, off);
      if r.Err? then Err(r.error) else ParseFrom(d, n, done + [r.value.0], r.value.1)
  }

  function Parse(d: seq<Byte>): Result<seq<Layer>> {
    if |d| < 4 then Err(Truncated)
    else if Word(d, 0) != MAGIC then Err(BadMagic)
    else if |d| < 8 then Err(Truncated)
    else if Word(d, 4) != 1 then Err(BadVersion)
    else if |d| < FILE_HEADER then Err(Truncated)
    else if Word(d, 8) != 2 then Err(BadScale)
    else if Word(d, 12) == 0 || Word(d, 12) > MAX_LAYERS then Err(BadLayerCount)
    else ParseFrom(d, Word(d, 12), [], FILE_HEADER)
  }

  // ----- The printer -----

  /** `flag` says whether the layer has a bias; the converter writes 1, and any other number but 0 says the same. */
  function HeaderWords(l: Layer, flag: U32): seq<U32> {
    [l.kind, l.k, l.cin, l.cout, l.act, flag]
  }

  function LayerWords(l: Layer, flag: U32): seq<U32> {
    HeaderWords(l, flag) + l.w + l.bias + l.alpha
  }

  function NetWords(layers: seq<Layer>, flags: seq<U32>): seq<U32>
    requires |layers| == |flags|
  {
    if layers == [] then []
    else
      var n := |layers| - 1;
      NetWords(layers[..n], flags[..n]) + LayerWords(layers[n], flags[n])
  }

  function FileHeader(n: U32): (ws: seq<U32>)
    ensures |ws| == 4
  {
    [MAGIC, 1, 2, n]
  }

  function FileWords(layers: seq<Layer>, flags: seq<U32>): seq<U32>
    requires |layers| == |flags| <= MAX_LAYERS
  {
    FileHeader(|layers|) + NetWords(layers, flags)
  }

  function PrintFlagged(layers: seq<Layer>, flags: seq<U32>): seq<Byte>
    requires |layers| == |flags| <= MAX_LAYERS
  {
    Bytes(FileWords(layers, flags))
  }

  function Flag(l: Layer): U32 {
    if l.bias != [] then 1 else 0
  }

  function Flags(layers: seq<Layer>): (flags: seq<U32>)
    ensures |flags| == |layers| && FlagsFit(layers, flags)
  {
    seq(|layers|, i requires 0 <= i < |layers| => Flag(layers[i]))
  }

  /** Each flag says whether its layer has a bias. */
  predicate FlagsFit(layers: seq<Layer>, flags: seq<U32>) {
    |flags| == |layers| && forall i :: 0 <= i < |flags| ==> (flags[i] != 0 <==> layers[i].bias != [])
  }

  function Print(layers: seq<Layer>): seq<Byte>
    requires |layers| <= MAX_LAYERS
  {
    PrintFlagged(layers, Flags(layers))
  }

  // ----- The nets that the format holds -----

  predicate LayerOk(l: Layer, prevOut: U32, last: bool) {
    && l.cin == prevOut
    && (if l.kind == 0 then
          && l.k in {1, 3, 5, 7, 9} && l.cin <= 256 && 1 <= l.cout <= 256
          && |l.w| == l.cout * l.cin * l.k * l.k
          && (l.bias == [] || |l.bias| == l.cout)
          && |l.alpha| == (if l.act == 1 then l.cout else 0)
        else
          && l.kind == 1 && last && l.cin == 4 && l.cout == 1
          && l.act != 1 && l.w == l.bias == l.alpha == [])
  }

  /** The channels chain from one to a single final shuffle, and every layer has the weights of its shape. */
  ghost predicate NetOk(layers: seq<Layer>) {
    && 1 <= |layers| <= 64
    && Chained(layers, |layers|)
    && layers[|layers| - 1].kind == 1
  }

  ghost predicate Chained(layers: seq<Layer>, n: nat) {
    forall i :: 0 <= i < |layers| ==> LayerOk(layers[i], LastOut(layers[..i]), i + 1 == n)
  }

  /** Every parsed net is well-formed: the parser keeps what the engine relies on. */
  lemma {:induction false} ParsedNetOk(d: seq<Byte>)
    requires Parse(d).Ok?
    ensures NetOk(Parse(d).value)
  {
    ParsedChain(d, Word(d, 12), [], FILE_HEADER);
  }

  lemma {:induction false} ParsedChain(d: seq<Byte>, n: nat, done: seq<Layer>, off: nat)
    requires 0 < n && |done| <= n && Chained(done, n) && ParseFrom(d, n, done, off).Ok?
    ensures var layers := ParseFrom(d, n, done, off).value;
            |layers| == n && Chained(layers, n) && layers[n - 1].kind == 1
    decreases n - |done|
  {
    if |done| < n {
      var l := ParseLayer(d, n, done, off).value;
      ChainedAppend(done, l.0, n);
      ParsedChain(d, n, done + [l.0], l.1);
    }
  }

  lemma {:induction false} ChainedAppend(done: seq<Layer>, l: Layer, n: nat)
    requires Chained(done, n) && LayerOk(l, LastOut(done), |done| + 1 == n)
    ensures Chained(done + [l], n)
  {
    forall i | 0 <= i < |done| + 1
      ensures LayerOk((done + [l])[i], LastOut((done + [l])[..i]), i + 1 == n)
    {
      assert (done + [l])[..i] == done[..i];
      assert done[..|done|] == done;
    }
  }

  /** A net that is well-formed prints to a blob that parses back to it ... */
  lemma {:induction false} ParsePrinted(layers: seq<Layer>)
    requires NetOk(layers)
    ensures Parse(Print(layers)) == Ok(layers)
  {
    ParseFlagged(layers, Flags(layers));
  }

  /** ... whatever the numbers by which it says that a layer has a bias. */
  lemma {:induction false} ParseFlagged(layers: seq<Layer>, flags: seq<U32>)
    requires NetOk(layers) && FlagsFit(layers, flags)
    ensures Parse(PrintFlagged(layers, flags)) == Ok(layers)
  {
    var d := PrintFlagged(layers, flags);
    forall i | 0 <= i < 4
      ensures |d| >= 16 && Word(d, 4 * i) == FileWords(layers, flags)[i]
    {
      WordOfBytes(FileWords(layers, flags), i);
    }
    assert layers[..0] == [] && flags[..0] == [];
    assert Word(d, 4 * 0) == MAGIC && Word(d, 4 * 1) == 1 && Word(d, 4 * 2) == 2 && Word(d, 4 * 3) == |layers|;
    ParsePrintedFrom(layers, flags, 0);
  }

  function Offset(layers: seq<Layer>, flags: seq<U32>): nat
    requires |layers| == |flags|
  {
    FILE_HEADER + 4 * |NetWords(layers, flags)|
  }

  lemma {:induction false} ParsePrintedFrom(layers: seq<Layer>, flags: seq<U32>, i: nat)
    requires NetOk(layers) && FlagsFit(layers, flags) && i <= |layers|
    ensures ParseFrom(PrintFlagged(layers, flags), |layers|, layers[..i], Offset(layers[..i], flags[..i]))
         == Ok(layers)
    decreases |layers| - i
  {
    if i == |layers| {
      assert layers[..i] == layers && flags[..i] == flags;
    } else {
      ParsePrintedLayer(layers, flags, i);
      assert layers[..i + 1] == layers[..i] + [layers[i]];
      ParseFromNext(PrintFlagged(layers, flags), |layers|, layers[..i], Offset(layers[..i], flags[..i]), layers[i],
                    Offset(layers[..i + 1], flags[..i + 1]));
      ParsePrintedFrom(layers, flags, i + 1);
    }
  }

  /** The words after layer `i` in the printed net. */
  lemma {:induction false} NetWordsSplit(layers: seq<Layer>, flags: seq<U32>, i: nat) returns (rest: seq<U32>)
    requires |layers| == |flags| && i <= |layers|
    ensures NetWords(layers, flags) == NetWords(layers[..i], flags[..i]) + rest
    decreases |layers| - i
  {
    if i == |layers| {
      rest := [];
      assert layers[..i] == layers && flags[..i] == flags;
    } else {
      var after := NetWordsSplit(layers, flags, i + 1);
      NetWordsNext(layers, flags, i);
      rest := LayerWords(layers[i], flags[i]) + after;
    }
  }

  lemma {:induction false} NetWordsNext(layers: seq<Layer>, flags: seq<U32>, i: nat)
    requires |layers| == |flags| && i < |layers|
    ensures NetWords(layers[..i + 1], flags[..i + 1])
         == NetWords(layers[..i], flags[..i]) + LayerWords(layers[i], flags[i])
  {
    assert layers[..i + 1][..i] == layers[..i] && flags[..i + 1][..i] == flags[..i];
  }

  lemma {:induction false} ParsePrintedLayer(layers: seq<Layer>, flags: seq<U32>, i: nat)
    requires NetOk(layers) && FlagsFit(layers, flags) && i < |layers|
    ensures ParseLayer(PrintFlagged(layers, flags), |layers|, layers[..i], Offset(layers[..i], flags[..i]))
         == Ok((layers[i], Offset(layers[..i + 1], flags[..i + 1])))
  {
    var rest := FileWordsSplit(layers, flags, i);
    NetWordsNext(layers, flags, i);
    NetLayer(layers, i);
    PrintedLayer(WordsBefore(layers, flags, i), layers[i], flags[i], rest, PrintFlagged(layers, flags), |layers|,
                 layers[..i], Offset(layers[..i], flags[..i]), Offset(layers[..i + 1], flags[..i + 1]));
  }

  lemma {:induction false} NetLayer(layers: seq<Layer>, i: nat)
    requires NetOk(layers) && i < |layers|
    ensures LayerOk(layers[i], LastOut(layers[..i]), |layers[..i]| + 1 == |layers|)
  {
  }

  function WordsBefore(layers: seq<Layer>, flags: seq<U32>, i: nat): (ws: seq<U32>)
    requires i <= |layers| == |flags| <= MAX_LAYERS
    ensures Offset(layers[..i], flags[..i]) == 4 * |ws|
  {
    FileHeader(|layers|) + NetWords(layers[..i], flags[..i])
  }

  lemma {:induction false} FileWordsSplit(layers: seq<Layer>, flags: seq<U32>, i: nat) returns (rest: seq<U32>)
    requires i < |layers| == |flags| <= MAX_LAYERS
    ensures FileWords(layers, flags) == WordsBefore(layers, flags, i) + LayerWords(layers[i], flags[i]) + rest
  {
    rest := NetWordsSplit(layers, flags, i + 1);
    NetWordsNext(layers, flags, i);
  }

  lemma {:induction false} PrintedLayer(
    before: seq<U32>, l: Layer, flag: U32, rest: seq<U32>, d: seq<Byte>, n: nat, done: seq<Layer>, off: nat,
    after: nat)
    requires LayerOk(l, LastOut(done), |done| + 1 == n) && d == Bytes(before + LayerWords(l, flag) + rest)
    requires flag != 0 <==> l.bias != []
    requires off == 4 * |before| && after == off + 4 * |LayerWords(l, flag)|
    ensures ParseLayer(d, n, done, off) == Ok((l, after))
  {
    PrintedHeader(before, l, flag, rest);
    if l.kind == CONV {
      PrintedConvLayer(before, l, flag, rest, d, HeaderAt(d, off), off + LAYER_HEADER, after);
    }
  }

  lemma {:induction false} PrintedConvLayer(
    before: seq<U32>, l: Layer, flag: U32, rest: seq<U32>, d: seq<Byte>, h: Header, off: nat, after: nat)
    requires LayerOk(l, l.cin, false) && d == Bytes(before + LayerWords(l, flag) + rest)
    requires h == Header(l.kind, l.k, l.cin, l.cout, l.act, flag) && (flag != 0 <==> l.bias != [])
    requires off == 4 * |before| + LAYER_HEADER && after == 4 * |before| + 4 * |LayerWords(l, flag)|
    ensures ParseConv(d, h, off) == Ok((l, after))
  {
    PrintedConv(before + HeaderWords(l, flag), l, flag, rest, before + LayerWords(l, flag) + rest, h);
  }

  lemma {:induction false} PrintedHeader(before: seq<U32>, l: Layer, flag: U32, rest: seq<U32>)
    ensures var d, off := Bytes(before + LayerWords(l, flag) + rest), 4 * |before|;
            && off + LAYER_HEADER <= |d|
            && HeaderAt(d, off) == Header(l.kind, l.k, l.cin, l.cout, l.act, flag)
  {
    var all := before + LayerWords(l, flag) + rest;
    var d, off := Bytes(all), 4 * |before|;
    PrintedWords(before, HeaderWords(l, flag), l.w + l.bias + l.alpha + rest, all);
    WordsHeader(d, off, HeaderWords(l, flag));
  }

  lemma {:induction false} WordsHeader(d: seq<Byte>, off: nat, ws: seq<U32>)
    requires |ws| == 6 && TakeWords(d, off, 6) == Ok(ws)
    ensures off + LAYER_HEADER <= |d|
    ensures HeaderAt(d, off) == Header(ws[0], ws[1], ws[2], ws[3], ws[4], ws[5])
  {
    forall i | 0 <= i < 6
      ensures Word(d, off + 4 * i) == ws[i]
    {
      assert Words(d, off, 6)[i] == ws[i];
    }
    assert Word(d, off + 4 * 0) == ws[0] && Word(d, off + 4 * 1) == ws[1] && Word(d, off + 4 * 2) == ws[2];
    assert Word(d, off + 4 * 3) == ws[3] && Word(d, off + 4 * 4) == ws[4] && Word(d, off + 4 * 5) == ws[5];
  }

  lemma {:induction false} PrintedConv(
    before: seq<U32>, l: Layer, flag: U32, rest: seq<U32>, all: seq<U32>, h: Header)
    requires all == before + l.w + l.bias + l.alpha + rest
    requires h == Header(l.kind, l.k, l.cin, l.cout, l.act, flag) && (flag != 0 <==> l.bias != [])
    requires |l.w| == WeightCount(l.k, l.cin, l.cout) && (l.bias == [] || |l.bias| == l.cout)
    requires |l.alpha| == if l.act == PRELU then l.cout else 0
    ensures ParseConv(Bytes(all), h, 4 * |before|)
         == Ok((l, 4 * |before| + 4 * |l.w| + 4 * |l.bias| + 4 * |l.alpha|))
  {
    PrintedPayload(before, l.w, l.bias, l.alpha, rest, all);
    ConvFromWords(Bytes(all), h, 4 * |before|, l);
  }

  /** Three runs of words, one after the other. */
  lemma {:induction false} PrintedPayload(
    before: seq<U32>, w: seq<U32>, bias: seq<U32>, alpha: seq<U32>, rest: seq<U32>, all: seq<U32>)
    requires all == before + w + bias + alpha + rest
    ensures TakeWords(Bytes(all), 4 * |before|, |w|) == Ok(w)
    ensures TakeWords(Bytes(all), 4 * |before| + 4 * |w|, |bias|) == Ok(bias)
    ensures TakeWords(Bytes(all), 4 * |before| + 4 * |w| + 4 * |bias|, |alpha|) == Ok(alpha)
  {
    PrintedWords(before, w, bias + alpha + rest, all);
    PrintedWords(before + w, bias, alpha + rest, all);
    PrintedWords(before + w + bias, alpha, rest, all);
  }

  lemma {:induction false} ConvFromWords(d: seq<Byte>, h: Header, off: nat, l: Layer)
    requires TakeWords(d, off, WeightCount(h.k, h.cin, h.cout)) == Ok(l.w)
    requires TakeWords(d, off + 4 * |l.w|, |l.bias|) == Ok(l.bias)
    requires TakeWords(d, off + 4 * |l.w| + 4 * |l.bias|, |l.alpha|) == Ok(l.alpha)
    requires h == Header(l.kind, l.k, l.cin, l.cout, l.act, h.hasBias) && (h.hasBias != 0 <==> l.bias != [])
    requires l.bias == [] || |l.bias| == l.cout
    requires |l.alpha| == if l.act == PRELU then l.cout else 0
    ensures ParseConv(d, h, off) == Ok((l, off + 4 * |l.w| + 4 * |l.bias| + 4 * |l.alpha|))
  {
  }

  lemma {:induction false} PrintedWords(a: seq<U32>, ws: seq<U32>, b: seq<U32>, all: seq<U32>)
    requires all == a + ws + b
    ensures TakeWords(Bytes(all), 4 * |a|, |ws|) == Ok(ws)
  {
    BytesAppend(a + ws, b);
    BytesAppend(a, ws);
    WordsOfBytes(Bytes(a), ws, Bytes(b));
  }

  // ----- No accepted blob is a proper prefix of another -----

  lemma {:induction false} PrefixFree(d: seq<Byte>, more: seq<Byte>)
    requires Parse(d).Ok? && more != []
    ensures Parse(d + more) == Err(TrailingBytes)
  {
    forall off: nat | off + 4 <= |d|
      ensures Word(d + more, off) == Word(d, off)
    {
      WordExtended(d, more, off);
    }
    PrefixFreeFrom(d, more, Word(d, 12), [], FILE_HEADER);
  }

  lemma {:induction false} WordExtended(d: seq<Byte>, more: seq<Byte>, off: nat)
    requires off + 4 <= |d|
    ensures Word(d + more, off) == Word(d, off)
  {
    WordInside([], d, more, off);
    assert [] + d + more == d + more;
  }

  lemma {:induction false} PrefixFreeFrom(d: seq<Byte>, more: seq<Byte>, n: nat, done: seq<Layer>, off: nat)
    requires 0 < n && |done| <= n && more != [] && ParseFrom(d, n, done, off).Ok?
    ensures ParseFrom(d + more, n, done, off) == Err(TrailingBytes)
    decreases n - |done|
  {
    if |done| < n {
      var r := ParseLayer(d, n, done, off);
      LayerExtended(d, more, n, done, off);
      PrefixFreeFrom(d, more, n, done + [r.value.0], r.value.1);
    }
  }

  lemma {:induction false} LayerExtended(d: seq<Byte>, more: seq<Byte>, n: nat, done: seq<Layer>, off: nat)
    requires ParseLayer(d, n, done, off).Ok?
    ensures ParseLayer(d + more, n, done, off) == ParseLayer(d, n, done, off)
  {
    forall at: nat | at + 4 <= |d|
      ensures Word(d + more, at) == Word(d, at)
    {
      WordExtended(d, more, at);
    }
    assert HeaderAt(d + more, off) == HeaderAt(d, off);
    var h := HeaderAt(d, off);
    if h.kind == CONV {
      ConvExtended(d, more, h, off + LAYER_HEADER);
    }
  }

  lemma {:induction false} ConvExtended(d: seq<Byte>, more: seq<Byte>, h: Header, off: nat)
    requires ParseConv(d, h, off).Ok?
    ensures ParseConv(d + more, h, off) == ParseConv(d, h, off)
  {
    var off1 := off + 4 * WeightCount(h.k, h.cin, h.cout);
    TakeExtended(d, more, off, WeightCount(h.k, h.cin, h.cout));
    if h.hasBias != 0 {
      TakeExtended(d, more, off1, h.cout);
    }
    if h.act == PRELU {
      TakeExtended(d, more, if h.hasBias != 0 then off1 + 4 * h.cout else off1, h.cout);
    }
  }

  lemma {:induction false} TakeExtended(d: seq<Byte>, more: seq<Byte>, at: nat, count: nat)
    requires TakeWords(d, at, count).Ok?
    ensures TakeWords(d + more, at, count) == TakeWords(d, at, count)
  {
    forall i | 0 <= i < count
      ensures Word(d + more, at + 4 * i) == Word(d, at + 4 * i)
    {
      WordExtended(d, more, at + 4 * i);
    }
    assert Words(d + more, at, count) == Words(d, at, count);
  }

  // ----- Every accepted blob is a printed net -----

  lemma {:induction false} WordIsOctets(d: seq<Byte>, off: nat)
    requires off + 4 <= |d|
    ensures d[off..off + 4] == Le32(Word(d, off))
  {
    FourDigits(d[off], d[off + 1], d[off + 2], d[off + 3], Word(d, off));
  }

  lemma {:induction false} FourDigits(a: Byte, b: Byte, c: Byte, e: Byte, v: U32)
    requires v == (a as int) + (b as int) * 256 + (c as int) * 0x1_0000 + (e as int) * 0x100_0000
    ensures Le32(v) == [a, b, c, e]
  {
    var v1, v2, v3 := b + 256 * (c as int) + 0x1_0000 * (e as int), c + 256 * (e as int), e as int;
    assert v == 256 * v1 + a && v1 == 256 * v2 + b && v2 == 256 * v3 + c;
    assert v / 256 == v1 && v1 / 256 == v2 && v2 / 256 == v3;
    assert v / 0x1_0000 == v2 && v / 0x100_0000 == v3;
  }

  lemma {:induction false} WordsAreOctets(d: seq<Byte>, off: nat, count: nat)
    requires off + 4 * count <= |d|
    ensures d[off..off + 4 * count] == Bytes(Words(d, off, count))
  {
    if count > 0 {
      var n := count - 1;
      WordsAreOctets(d, off, n);
      WordIsOctets(d, off + 4 * n);
      assert Words(d, off, count) == Words(d, off, n) + [Word(d, off + 4 * n)];
      BytesAppend(Words(d, off, n), [Word(d, off + 4 * n)]);
      OneWord(Word(d, off + 4 * n));
      assert d[off..off + 4 * count] == d[off..off + 4 * n] + d[off + 4 * n..off + 4 * n + 4];
    }
  }

  lemma {:induction false} OneWord(v: U32)
    ensures Bytes([v]) == Le32(v)
  {
    assert [v][1..] == [];
  }

  /** A run of words that was taken is in the blob where it was taken from. */
  lemma {:induction false} TakenIsThere(d: seq<Byte>, off: nat, count: nat, ws: seq<U32>)
    requires TakeWords(d, off, count) == Ok(ws)
    ensures |ws| == count && off + 4 * |ws| <= |d| && d[off..off + 4 * |ws|] == Bytes(ws)
  {
    WordsAreOctets(d, off, count);
  }

  /** A parsed layer is in the blob as it is printed, under the flag that was read. */
  lemma {:induction false} LayerIsThere(d: seq<Byte>, n: nat, done: seq<Layer>, off: nat, l: Layer, after: nat)
    returns (flag: U32)
    requires ParseLayer(d, n, done, off) == Ok((l, after))
    ensures off <= after <= |d| && d[off..after] == Bytes(LayerWords(l, flag)) && (flag != 0 <==> l.bias != [])
  {
    var h := LayerParts(d, n, done, off, l, after);
    flag := h.hasBias;
    HeaderIsThere(d, off, h);
    if l.kind == CONV {
      ConvIsThere(d, h, off + LAYER_HEADER, l, after);
    }
    BytesAppend(HeaderWords(l, flag), l.w + l.bias + l.alpha);
    Regroup(HeaderWords(l, flag), l.w, l.bias, l.alpha);
    Cut(d, off, off + LAYER_HEADER, after);
  }

  lemma {:induction false} LayerParts(d: seq<Byte>, n: nat, done: seq<Layer>, off: nat, l: Layer, after: nat)
    returns (h: Header)
    requires ParseLayer(d, n, done, off) == Ok((l, after))
    ensures off + LAYER_HEADER <= |d| && h == HeaderAt(d, off)
    ensures (l.kind, l.k, l.cin, l.cout, l.act) == (h.kind, h.k, h.cin, h.cout, h.act)
    ensures if l.kind == CONV then ParseConv(d, h, off + LAYER_HEADER) == Ok((l, after)) && h.cout > 0
            else l.w == l.bias == l.alpha == [] && h.hasBias == 0 && after == off + LAYER_HEADER
  {
    h := HeaderAt(d, off);
  }

  lemma {:induction false} Regroup(a: seq<U32>, b: seq<U32>, c: seq<U32>, e: seq<U32>)
    ensures a + (b + c + e) == a + b + c + e
  {
  }

  lemma {:induction false} Cut(d: seq<Byte>, a: nat, b: nat, c: nat)
    requires a <= b <= c <= |d|
    ensures d[a..c] == d[a..b] + d[b..c] && d[b..b] == []
  {
  }

  lemma {:induction false} HeaderIsThere(d: seq<Byte>, off: nat, h: Header)
    requires off + LAYER_HEADER <= |d| && h == HeaderAt(d, off)
    ensures d[off..off + LAYER_HEADER] == Bytes([h.kind, h.k, h.cin, h.cout, h.act, h.hasBias])
  {
    WordsAreOctets(d, off, 6);
    assert Words(d, off, 6) == [h.kind, h.k, h.cin, h.cout, h.act, h.hasBias];
  }

  lemma {:induction false} ConvIsThere(d: seq<Byte>, h: Header, off: nat, l: Layer, after: nat)
    requires ParseConv(d, h, off) == Ok((l, after)) && h.cout > 0
    ensures off <= after <= |d| && d[off..after] == Bytes(l.w + l.bias + l.alpha)
    ensures h.hasBias != 0 <==> l.bias != []
  {
    var off1, off2 := ConvParts(d, h, off, l, after);
    PartsAreThere(d, off, off1, off2, WeightCount(h.k, h.cin, h.cout), h.cout, h.hasBias != 0, h.act == PRELU,
                  l.w, l.bias, l.alpha);
  }

  lemma {:induction false} PartsAreThere(
    d: seq<Byte>, off: nat, off1: nat, off2: nat, count: nat, cout: nat, bias: bool, prelu: bool,
    w: seq<U32>, b: seq<U32>, a: seq<U32>)
    requires TakeWords(d, off, count) == Ok(w) && off1 == off + 4 * |w| <= |d|
    requires if bias then TakeWords(d, off1, cout) == Ok(b) else b == []
    requires off2 == off1 + 4 * |b| <= |d| && cout > 0
    requires if prelu then TakeWords(d, off2, cout) == Ok(a) else a == []
    ensures off2 + 4 * |a| <= |d| && d[off..off2 + 4 * |a|] == Bytes(w + b + a) && (bias <==> b != [])
  {
    TakenIsThere(d, off, count, w);
    TakenOrNone(d, off1, cout, bias, b);
    TakenOrNone(d, off2, cout, prelu, a);
    ThreeRuns(d, off, off1, off2, off2 + 4 * |a|, w, b, a);
  }

  lemma {:induction false} ThreeRuns(
    d: seq<Byte>, off: nat, off1: nat, off2: nat, after: nat, a: seq<U32>, b: seq<U32>, c: seq<U32>)
    requires off <= off1 <= off2 <= after <= |d|
    requires d[off..off1] == Bytes(a) && d[off1..off2] == Bytes(b) && d[off2..after] == Bytes(c)
    ensures d[off..after] == Bytes(a + b + c)
  {
    BytesAppend(a, b);
    BytesAppend(a + b, c);
    Cut(d, off, off1, off2);
    Cut(d, off, off2, after);
  }

  lemma {:induction false} ConvParts(d: seq<Byte>, h: Header, off: nat, l: Layer, after: nat)
    returns (off1: nat, off2: nat)
    requires ParseConv(d, h, off) == Ok((l, after))
    ensures TakeWords(d, off, WeightCount(h.k, h.cin, h.cout)) == Ok(l.w) && off1 == off + 4 * |l.w| <= |d|
    ensures if h.hasBias != 0 then TakeWords(d, off1, h.cout) == Ok(l.bias) else l.bias == []
    ensures off2 == off1 + 4 * |l.bias| <= |d| && after == off2 + 4 * |l.alpha|
    ensures if h.act == PRELU then TakeWords(d, off2, h.cout) == Ok(l.alpha) else l.alpha == []
  {
    off1 := off + 4 * |l.w|;
    off2 := off1 + 4 * |l.bias|;
  }

  lemma {:induction false} TakenOrNone(d: seq<Byte>, off: nat, count: nat, take: bool, ws: seq<U32>)
    requires off <= |d| && count > 0 && (if take then TakeWords(d, off, count) == Ok(ws) else ws == [])
    ensures off + 4 * |ws| <= |d| && d[off..off + 4 * |ws|] == Bytes(ws) && (take <==> ws != [])
  {
    if take {
      TakenIsThere(d, off, count, ws);
    }
  }

  lemma {:induction false} NetIsThere(d: seq<Byte>, n: nat, done: seq<Layer>, flags: seq<U32>, off: nat)
    returns (all: seq<U32>)
    requires 0 < n <= MAX_LAYERS && |done| <= n && FlagsFit(done, flags) && ParseFrom(d, n, done, off).Ok?
    requires off <= |d| && d[..off] == Bytes(FileHeader(n) + NetWords(done, flags))
    ensures var layers := ParseFrom(d, n, done, off).value;
            FlagsFit(layers, all) && |layers| == n && d == PrintFlagged(layers, all)
    decreases n - |done|
  {
    if |done| == n {
      all := flags;
      assert d[..off] == d;
    } else {
      var (l, after) := ParseLayer(d, n, done, off).value;
      ParseFromNext(d, n, done, off, l, after);
      var flag := NextIsThere(d, n, done, flags, off, l, after);
      all := NetIsThere(d, n, done + [l], flags + [flag], after);
    }
  }

  lemma {:induction false} ParseFromNext(d: seq<Byte>, n: nat, done: seq<Layer>, off: nat, l: Layer, after: nat)
    requires |done| < n && ParseLayer(d, n, done, off) == Ok((l, after))
    ensures ParseFrom(d, n, done, off) == ParseFrom(d, n, done + [l], after)
  {
  }

  lemma {:induction false} NextIsThere(
    d: seq<Byte>, n: nat, done: seq<Layer>, flags: seq<U32>, off: nat, l: Layer, after: nat) returns (flag: U32)
    requires |done| < n <= MAX_LAYERS && FlagsFit(done, flags) && ParseLayer(d, n, done, off) == Ok((l, after))
    requires off <= |d| && d[..off] == Bytes(FileHeader(n) + NetWords(done, flags))
    ensures FlagsFit(done + [l], flags + [flag]) && off <= after <= |d|
    ensures d[..after] == Bytes(FileHeader(n) + NetWords(done + [l], flags + [flag]))
  {
    flag := LayerIsThere(d, n, done, off, l, after);
    OneMoreLayer(n, done, flags, l, flag);
    assert d[..after] == d[..off] + d[off..after];
  }

  lemma {:induction false} OneMoreLayer(n: U32, done: seq<Layer>, flags: seq<U32>, l: Layer, flag: U32)
    requires |done| == |flags|
    ensures Bytes(FileHeader(n) + NetWords(done + [l], flags + [flag]))
         == Bytes(FileHeader(n) + NetWords(done, flags)) + Bytes(LayerWords(l, flag))
  {
    assert (done + [l])[..|done|] == done && (flags + [flag])[..|done|] == flags;
    assert FileHeader(n) + NetWords(done + [l], flags + [flag])
        == FileHeader(n) + NetWords(done, flags) + LayerWords(l, flag);
    BytesAppend(FileHeader(n) + NetWords(done, flags), LayerWords(l, flag));
  }

  /**
   The parser accepts exactly the printed nets: a blob parses to a net if and only if the net is well-formed and the
   blob is its print, with any numbers that say which of its layers have a bias.
   */
  lemma {:induction false} AcceptsExactlyPrints(d: seq<Byte>, layers: seq<Layer>)
    ensures Parse(d) == Ok(layers)
       <==> NetOk(layers) && exists flags :: FlagsFit(layers, flags) && d == PrintFlagged(layers, flags)
  {
    if Parse(d) == Ok(layers) {
      ParsedNetOk(d);
      FileHeaderIsThere(d);
      var flags := NetIsThere(d, Word(d, 12), [], [], FILE_HEADER);
      assert FlagsFit(layers, flags) && d == PrintFlagged(layers, flags);
    }
    if NetOk(layers) {
      forall flags | FlagsFit(layers, flags) && d == PrintFlagged(layers, flags)
        ensures Parse(d) == Ok(layers)
      {
        ParseFlagged(layers, flags);
      }
    }
  }

  lemma {:induction false} FileHeaderIsThere(d: seq<Byte>)
    requires Parse(d).Ok?
    ensures |d| >= FILE_HEADER && d[..FILE_HEADER] == Bytes(FileHeader(Word(d, 12)) + NetWords([], []))
  {
    WordsAreOctets(d, 0, 4);
    assert Words(d, 0, 4) == FileHeader(Word(d, 12));
    assert FileHeader(Word(d, 12)) + [] == FileHeader(Word(d, 12));
    assert d[0..16] == d[..16];
  }

  // ----- The file header octet by octet -----

  /** The first twelve octets of every accepted blob: "SRW1", version 1 and scale 2. */
  lemma {:induction false} BlobStarts(d: seq<Byte>)
    requires Parse(d).Ok?
    ensures |d| >= 16 && d[..12] == [0x53, 0x52, 0x57, 0x31, 1, 0, 0, 0, 2, 0, 0, 0]
  {
    HeaderWordsAre(d);
    ThreeFields(d);
  }

  /** The faults of the file header, the first of which is the one that is reported. */
  lemma {:induction false} FirstFault(d: seq<Byte>)
    ensures Parse(d) == Err(BadMagic) <==> |d| >= 4 && d[..4] != [0x53, 0x52, 0x57, 0x31]
    ensures Parse(d) == Err(BadVersion)
       <==> |d| >= 8 && d[..4] == [0x53, 0x52, 0x57, 0x31] && d[4..8] != [1, 0, 0, 0]
    ensures Parse(d) == Err(BadScale)
       <==> |d| >= 16 && d[..8] == [0x53, 0x52, 0x57, 0x31, 1, 0, 0, 0] && d[8..12] != [2, 0, 0, 0]
    ensures Parse(d) == Err(BadLayerCount)
       <==> |d| >= 16 && d[..12] == [0x53, 0x52, 0x57, 0x31, 1, 0, 0, 0, 2, 0, 0, 0]
            && !(1 <= d[12] <= 64 && d[13] == d[14] == d[15] == 0)
  {
    FaultWords(d);
    HeaderWordsAre(d);
    ThreeFields(d);
  }

  lemma {:induction false} FaultWords(d: seq<Byte>)
    ensures Parse(d) == Err(BadMagic) <==> |d| >= 4 && Word(d, 0) != MAGIC
    ensures Parse(d) == Err(BadVersion) <==> |d| >= 8 && Word(d, 0) == MAGIC && Word(d, 4) != 1
    ensures Parse(d) == Err(BadScale) <==> |d| >= 16 && Word(d, 0) == MAGIC && Word(d, 4) == 1 && Word(d, 8) != 2
    ensures Parse(d) == Err(BadLayerCount)
       <==> |d| >= 16 && Word(d, 0) == MAGIC && Word(d, 4) == 1 && Word(d, 8) == 2 && !(1 <= Word(d, 12) <= 64)
  {
    if |d| >= 16 {
      NoHeaderFault(d, Word(d, 12), [], FILE_HEADER);
    }
  }

  lemma {:induction false} HeaderWordsAre(d: seq<Byte>)
    ensures |d| >= 4 ==> (Word(d, 0) == MAGIC <==> d[..4] == [0x53, 0x52, 0x57, 0x31])
    ensures |d| >= 8 ==> (Word(d, 4) == 1 <==> d[4..8] == [1, 0, 0, 0])
    ensures |d| >= 16 ==> (Word(d, 8) == 2 <==> d[8..12] == [2, 0, 0, 0])
    ensures |d| >= 16 ==> (1 <= Word(d, 12) <= 64 <==> 1 <= d[12] <= 64 && d[13] == d[14] == d[15] == 0)
  {
    if |d| >= 4 {
      WordIs(d, 0, [0x53, 0x52, 0x57, 0x31]);
    }
    if |d| >= 8 {
      WordIs(d, 4, [1, 0, 0, 0]);
    }
    if |d| >= 16 {
      WordIs(d, 8, [2, 0, 0, 0]);
    }
  }

  lemma {:induction false} ThreeFields(d: seq<Byte>)
    ensures |d| >= 8 ==> d[..8] == d[..4] + d[4..8]
    ensures |d| >= 12 ==> d[..12] == d[..8] + d[8..12]
    ensures |d| >= 12 ==> d[..12][..8] == d[..8] && d[..12][8..] == d[8..12]
    ensures |d| >= 8 ==> d[..8][..4] == d[..4] && d[..8][4..] == d[4..8]
  {
  }

  lemma {:induction false} WordIs(d: seq<Byte>, off: nat, b: seq<Byte>)
    requires off + 4 <= |d| && |b| == 4
    ensures Word(d, off) == Word(b, 0) <==> d[off..off + 4] == b
  {
    WordIsOctets(d, off);
    WordIsOctets(b, 0);
    assert b[0..4] == b;
    WordOfLe32(Word(d, off));
  }

  /** No layer has a fault of the file header. */
  lemma {:induction false} NoHeaderFault(d: seq<Byte>, n: nat, done: seq<Layer>, off: nat)
    ensures 0 < n && |done| <= n ==>
              ParseFrom(d, n, done, off) !in
                {Err(BadMagic), Err(BadVersion), Err(BadScale), Err(BadLayerCount)}
    decreases if |done| <= n then n - |done| else 0
  {
    if 0 < n && |done| < n {
      var r := ParseLayer(d, n, done, off);
      if r.Ok? {
        NoHeaderFault(d, n, done + [r.value.0], r.value.1);
      }
    }
  }
}
