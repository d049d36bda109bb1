/** The SRW1 converter and loader as they run: a blob appended layer by layer, and a cursor that reads it back. */
module Srw1Files {
  import opened VideoFormat
  import opened RtpTime
  import opened Srw1
  import opened Srw1Weights

  // ----- The loader -----

  class BlobCursor {
    const data: seq<Byte>
    var off: nat

    constructor (data: seq<Byte>)
      ensures this.data == data && off == 0
    {
      this.data, off := data, 0;
    }

    method U32At() returns (r: Result<U32>)
      modifies this
      ensures r == (if old(off) + 4 > |data| then Err(Truncated) else Ok(Word(data, old(off))))
      ensures off == if r.Ok? then old(off) + 4 else old(off)
    {
      if off + 4 > |data| { return Err(Truncated); }
      r := Ok(Word(data, off));
      off := off + 4;
    }

    method Floats(count: nat) returns (r: Result<seq<U32>>)
      modifies this
      ensures r == TakeWords(data, old(off), count)
      ensures off == if r.Ok? then old(off) + 4 * count else old(off)
    {
      r := TakeWords(data, off, count);
      if r.Ok? { off := off + 4 * count; }
    }

    /** Six words in a row. */
    method LayerHeader() returns (r: Result<Header>)
      modifies this
      ensures r == if old(off) + LAYER_HEADER > |data| then Err(Truncated) else Ok(HeaderAt(data, old(off)))
      ensures r.Ok? ==> off == old(off) + LAYER_HEADER
    {
      var kind := U32At();
      if kind.Err? { return Err(kind.error); }
      var k := U32At();
      if k.Err? { return Err(k.error); }
      var cin := U32At();
      if cin.Err? { return Err(cin.error); }
      var cout := U32At();
      if cout.Err? { return Err(cout.error); }
      var act := U32At();
      if act.Err? { return Err(act.error); }
      var hasBias := U32At();
      if hasBias.Err? { return Err(hasBias.error); }
      r := Ok(Header(kind.value, k.value, cin.value, cout.value, act.value, hasBias.value));
    }

    /** The weights of a convolution, then its bias and its slopes if it has them. */
    method ConvLayer(h: Header) returns (r: Result<Layer>)
      modifies this
      ensures var p := ParseConv(data, h, old(off));
              if p.Ok? then r == Ok(p.value.0) && off == p.value.1 else r == Err(p.error)
    {
      var w := Floats(WeightCount(h.k, h.cin, h.cout));
      if w.Err? { return Err(w.error); }
      var bias := Ok([]);
      if h.hasBias != 0 { bias := Floats(h.cout); }
      if bias.Err? { return Err(bias.error); }
      var alpha := Ok([]);
      if h.act == PRELU { alpha := Floats(h.cout); }
      if alpha.Err? { return Err(alpha.error); }
      r := Ok(Layer(h.kind, h.k, h.cin, h.cout, h.act, w.value, bias.value, alpha.value));
    }

    /** Layer `|done|` of `n`, checked against the layers before it. */
    method OneLayer(n: nat, prevOut: U32, done: seq<Layer>) returns (r: Result<Layer>)
      requires prevOut == LastOut(done)
      modifies this
      ensures var p := ParseLayer(data, n, done, old(off));
              if p.Ok? then r == Ok(p.value.0) && off == p.value.1 else r == Err(p.error)
    {
      var head := LayerHeader();
      if head.Err? { return Err(head.error); }
      var h, i := head.value, |done|;
      if h.cin != prevOut { return Err(ChannelMismatch(i)); }
      if h.kind == CONV {
        if h.k == 0 || h.k > 9 || h.k % 2 == 0 || h.cin > 256 || h.cout > 256 || h.cout == 0 {
          return Err(BadConvShape(i));
        }
        r := ConvLayer(h);
      } else if h.kind == SHUFFLE {
        if i + 1 != n || h.cin != 4 || h.cout != 1 { return Err(ShuffleNotLast(i)); }
        if h.hasBias != 0 || h.act == PRELU { return Err(ShuffleHasWeights(i)); }
        r := Ok(Layer(h.kind, h.k, h.cin, h.cout, h.act, [], [], []));
      } else {
        r := Err(UnknownKind(i));
      }
    }
  }

  method ParseBlob(data: seq<Byte>) returns (r: Result<seq<Layer>>)
    ensures r == Parse(data)
  {
    var c := new BlobCursor(data);
    var magic := c.U32At();
    if magic.Err? { return Err(magic.error); }
    if magic.value != MAGIC { return Err(BadMagic); }
    var version := c.U32At();
    if version.Err? { return Err(version.error); }
    if version.value != 1 { return Err(BadVersion); }
    var scale := c.U32At();
    if scale.Err? { return Err(scale.error); }
    var nLayers := c.U32At();
    if nLayers.Err? { return Err(nLayers.error); }
    if scale.value != 2 { return Err(BadScale); }
    if nLayers.value == 0 || nLayers.value > MAX_LAYERS { return Err(BadLayerCount); }
    r := ParseLayers(c, nLayers.value);
  }

  method ParseLayers(c: BlobCursor, n: nat) returns (r: Result<seq<Layer>>)
    requires n > 0
    modifies c
    ensures r == ParseFrom(c.data, n, [], old(c.off))
  {
    var prevOut: U32, layers := 1, [];
    while |layers| < n
      invariant |layers| <= n && prevOut == LastOut(layers)
      invariant ParseFrom(c.data, n, [], old(c.off)) == ParseFrom(c.data, n, layers, c.off)
    {
      var l := c.OneLayer(n, prevOut, layers);
      if l.Err? { return Err(l.error); }
      prevOut := l.value.cout;
      layers := layers + [l.value];
    }
    if layers[n - 1].kind != SHUFFLE { return Err(NotTerminated); }
    if c.off != |c.data| { return Err(TrailingBytes); }
    r := Ok(layers);
  }

  // ----- The converter -----

  /** A layer as the converter holds it: weights in HWIO order, and a bias or none. */
  datatype Trained = Trained(kind: U32, k: U32, cin: U32, cout: U32, act: U32, hwio: seq<U32>, bias: Option<seq<U32>>,
                             alpha: seq<U32>)

  function ShapeOf(t: Trained): Shape {
    Shape(t.k, t.cin, t.cout)
  }

  /** What the converter's own walk guarantees: as many weights, biases and slopes as the shape calls for. */
  predicate Sized(t: Trained) {
    if t.kind == CONV then
      && ShapeOf(t).Valid() && |t.hwio| == ShapeOf(t).Count()
      && (t.bias.Some? ==> |t.bias.value| == t.cout)
      && (t.act == PRELU ==> |t.alpha| == t.cout)
    else t.kind == SHUFFLE && t.bias.None?
  }

  /** The layer that the engine is to read. */
  function Converted(t: Trained): Layer
    requires Sized(t)
  {
    if t.kind == CONV then
      Layer(t.kind, t.k, t.cin, t.cout, t.act, Oihw(ShapeOf(t), t.hwio),
            if t.bias.Some? then t.bias.value else [], if t.act == PRELU then t.alpha else [])
    else Layer(t.kind, t.k, t.cin, t.cout, t.act, [], [], [])
  }

  function ConvertedNet(ts: seq<Trained>): (layers: seq<Layer>)
    requires forall i :: 0 <= i < |ts| ==> Sized(ts[i])
    ensures |layers| == |ts|
  {
    seq(|ts|, i requires 0 <= i < |ts| => Converted(ts[i]))
  }

  method Serialize(ts: seq<Trained>) returns (blob: seq<Byte>)
    requires |ts| <= MAX_LAYERS && forall i :: 0 <= i < |ts| ==> Sized(ts[i])
    ensures blob == Print(ConvertedNet(ts))
  {
    ghost var net, head := ConvertedNet(ts), FileHeader(|ts|);
    ghost var flags := Flags(net);
    blob := Bytes(FileHeader(|ts|));
    assert head + [] == head && net[..0] == [] && flags[..0] == [];
    for i := 0 to |ts|
      invariant blob == Bytes(head + NetWords(net[..i], flags[..i]))
    {
      var layer := SerializeLayer(ts[i]);
      AppendLayer(head, net, flags, i);
      blob := blob + layer;
    }
    assert net[..|ts|] == net && flags[..|ts|] == flags;
  }

  lemma {:induction false} AppendLayer(head: seq<U32>, net: seq<Layer>, flags: seq<U32>, i: nat)
    requires i < |net| == |flags|
    ensures Bytes(head + NetWords(net[..i + 1], flags[..i + 1]))
         == Bytes(head + NetWords(net[..i], flags[..i])) + Bytes(LayerWords(net[i], flags[i]))
  {
    NetWordsNext(net, flags, i);
    assert head + NetWords(net[..i + 1], flags[..i + 1])
        == head + NetWords(net[..i], flags[..i]) + LayerWords(net[i], flags[i]);
    BytesAppend(head + NetWords(net[..i], flags[..i]), LayerWords(net[i], flags[i]));
  }

  method SerializeLayer(t: Trained) returns (blob: seq<Byte>)
    requires Sized(t)
    ensures blob == Bytes(LayerWords(Converted(t), Flag(Converted(t))))
  {
    ghost var l := Converted(t);
    var hasBias := if t.bias.Some? then 1 else 0;
    blob := Bytes([t.kind, t.k, t.cin, t.cout, t.act, hasBias]);
    ghost var printed := HeaderWords(l, Flag(l));
    if t.kind == CONV {
      var w := ToOihw(ShapeOf(t), t.hwio);
      BytesAppend(printed, l.w);
      BytesAppend(printed + l.w, l.bias);
      BytesAppend(printed + l.w + l.bias, l.alpha);
      blob := blob + Bytes(w[..]);
      if t.bias.Some? { blob := blob + Bytes(t.bias.value); }
      if t.act == PRELU { blob := blob + Bytes(t.alpha); }
    } else {
      assert LayerWords(l, Flag(l)) == printed;
    }
  }

  /** The nets that the engine supports: small odd kernels, channels chained from one, and a shuffle at the end only. */
  ghost predicate Supported(ts: seq<Trained>) {
    && 1 <= |ts| <= 64 && ts[|ts| - 1].kind == 1
    && ts[0].cin == 1 && (forall i :: 0 < i < |ts| ==> ts[i].cin == ts[i - 1].cout)
    && (forall i :: 0 <= i < |ts| ==> Sized(ts[i]))
    && (forall i :: 0 <= i < |ts| && ts[i].kind == 0 ==>
          ts[i].k in {1, 3, 5, 7, 9} && ts[i].cin <= 256 && ts[i].cout <= 256)
    && (forall i :: 0 <= i < |ts| && ts[i].kind == 1 ==>
          i == |ts| - 1 && ts[i].cin == 4 && ts[i].cout == 1 && ts[i].act != 1)
  }

  lemma {:induction false} SupportedNetOk(ts: seq<Trained>)
    requires Supported(ts)
    ensures NetOk(ConvertedNet(ts))
  {
    var net := ConvertedNet(ts);
    forall i | 0 <= i < |net|
      ensures LayerOk(net[i], LastOut(net[..i]), i + 1 == |net|)
    {
      SupportedLayerAt(ts, net, i);
    }
  }

  lemma {:induction false} SupportedLayerAt(ts: seq<Trained>, net: seq<Layer>, i: nat)
    requires Supported(ts) && net == ConvertedNet(ts) && i < |ts|
    ensures LayerOk(net[i], LastOut(net[..i]), i + 1 == |ts|)
  {
    LastOutAt(net, i);
    if i > 0 {
      var before := ts[i - 1];
      assert Sized(before) && net[i - 1] == Converted(before) && net[i - 1].cout == before.cout;
    }
    assert Sized(ts[i]) && ts[i].cin == LastOut(net[..i]);
    SupportedLayerOk(ts[i], LastOut(net[..i]), i + 1 == |ts|);
  }

  lemma {:induction false} LastOutAt(layers: seq<Layer>, i: nat)
    requires i < |layers|
    ensures LastOut(layers[..i]) == if i == 0 then 1 else layers[i - 1].cout
  {
  }

  lemma {:induction false} SupportedLayerOk(t: Trained, prevOut: U32, last: bool)
    requires Sized(t) && t.cin == prevOut && t.kind <= 1
    requires t.kind == 0 ==> t.k in {1, 3, 5, 7, 9} && t.cin <= 256 && t.cout <= 256
    requires t.kind == 1 ==> last && t.cin == 4 && t.cout == 1 && t.act != 1
    ensures LayerOk(Converted(t), prevOut, last)
  {
  }

  /**
   The round trip: the blob of a trained net whose shape the engine supports parses to that net, every weight
   at its own tap, and from the parsed net the trained weights are recovered.
   */
  lemma {:induction false} SerializedParses(ts: seq<Trained>)
    requires Supported(ts)
    ensures Parse(Print(ConvertedNet(ts))) == Ok(ConvertedNet(ts))
    ensures forall i :: 0 <= i < |ts| && ts[i].kind == CONV ==>
              Hwio(ShapeOf(ts[i]), ConvertedNet(ts)[i].w) == ts[i].hwio
    ensures forall i :: 0 <= i < |ts| ==>
              var t, l := ts[i], ConvertedNet(ts)[i];
              && (l.kind, l.k, l.cin, l.cout, l.act) == (t.kind, t.k, t.cin, t.cout, t.act)
              && l.bias == (if t.bias.Some? then t.bias.value else [])
              && (t.kind == 0 && t.act == 1 ==> l.alpha == t.alpha)
  {
    SupportedNetOk(ts);
    ParsePrinted(ConvertedNet(ts));
    forall i | 0 <= i < |ts| && ts[i].kind == CONV
      ensures Hwio(ShapeOf(ts[i]), ConvertedNet(ts)[i].w) == ts[i].hwio
    {
      OihwBijection(ShapeOf(ts[i]), ts[i].hwio);
    }
  }
}
