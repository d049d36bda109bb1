/** The filter chain: what the dashboard shows, what the engine composes, and that the two agree. */
module FilterChain {
  import opened TokenLists
  import opened VideoFormat

  /** The filters by name; any other text names nothing. */
  datatype Token = Nr | Frc | Scale | Sharpen | ProcAmp | Grain | Delay | Unknown(text: string)

  const CATALOG: seq<Token> := [Nr, Frc, Scale, Sharpen, ProcAmp, Grain, Delay]

  function Text(t: Token): string {
    match t
    case Nr => "nr"
    case Frc => "frc"
    case Scale => "scale"
    case Sharpen => "sharpen"
    case ProcAmp => "procamp"
    case Grain => "grain"
    case Delay => "delay"
    case Unknown(text) => text
  }

  function Read(text: string): Token {
    if text == "nr" then Nr else if text == "frc" then Frc else if text == "scale" then Scale
    else if text == "sharpen" then Sharpen else if text == "procamp" then ProcAmp
    else if text == "grain" then Grain else if text == "delay" then Delay else Unknown(text)
  }

  function ReadAll(texts: seq<string>): (ts: seq<Token>)
    ensures |ts| == |texts| && forall i :: 0 <= i < |ts| ==> ts[i] == Read(texts[i])
  {
    seq(|texts|, i requires 0 <= i < |texts| => Read(texts[i]))
  }

  /** A known filter's name reads back as that filter, and has no comma or space in it. */
  lemma {:induction false} ReadText(t: Token)
    requires Known(t)
    ensures Read(Text(t)) == t && Text(t) != "" && ',' !in Text(t)
    ensures forall i :: 0 <= i < |Text(t)| ==> !Space(Text(t)[i])
  {
  }

  predicate Known(t: Token) {
    !t.Unknown?
  }

  function KnownTokens(): Token -> bool {
    (t: Token) => Known(t)
  }

  /** A frame operator; `delay` only marks the schedule. */
  predicate IsOp(t: Token) {
    Known(t) && t != Delay
  }

  /** The numbers that the automatic chain depends on. */
  datatype Amounts = Amounts(
    nrLuma: real, nrChroma: real, sharpen: real, brightness: real, contrast: real, saturation: real, hue: real,
    grain: real, delayVideo: real, delayAudio: real)

  /** `filters` is the configured text; `frcMode` and `frc` are the new and the old switch of rate conversion. */
  datatype Config = Config(filters: string, frcMode: int, frc: bool, amounts: Amounts) {
    predicate FrcOn() {
      frcMode > 0 || frc
    }
  }

  // ----- The dashboard -----

  /** The white space and line ends that trimming removes, in and beyond ASCII. */
  predicate Space(c: char) {
    var u := c as int;
    || 0x09 <= u <= 0x0d || 0x2000 <= u <= 0x200a
    || u in {0x20, 0xa0, 0x1680, 0x2028, 0x2029, 0x202f, 0x205f, 0x3000, 0xfeff}
  }

  function TrimLeft(s: string): string {
    if s != "" && Space(s[0]) then TrimLeft(s[1..]) else s
  }

  function TrimRight(s: string): string {
    if s != "" && Space(s[|s| - 1]) then TrimRight(s[..|s| - 1]) else s
  }

  function Trim(s: string): string {
    TrimRight(TrimLeft(s))
  }

  function Trimmed(ts: seq<string>): (r: seq<string>)
    ensures |r| == |ts|
  {
    seq(|ts|, i requires 0 <= i < |ts| => Trim(ts[i]))
  }

  function WithScale(ch: seq<Token>): seq<Token> {
    if Scale in ch then ch else ch + [Scale]
  }

  function FrcKept(frcOn: bool): Token -> bool {
    (t: Token) => t != Frc || frcOn
  }

  function NotDelay(): Token -> bool {
    (t: Token) => t != Delay
  }

  /** The chain of an explicit list: known names once each, no idle rate conversion, and a scale in any case. */
  function ExplicitChain(tokens: seq<Token>, frcOn: bool): seq<Token> {
    WithScale(Kept(Distinct(Kept(tokens, KnownTokens())), FrcKept(frcOn)))
  }

  function If(on: bool, t: Token): seq<Token> {
    if on then [t] else []
  }

  /** The automatic chain, given which stages are active. */
  function AutoChain(nr: bool, frc: bool, sharpen: bool, procamp: bool, grain: bool, delay: bool): seq<Token> {
    If(nr, Nr) + If(frc, Frc) + [Scale] + If(sharpen, Sharpen) + If(procamp, ProcAmp) + If(grain, Grain)
    + If(delay, Delay)
  }

  function PanelAuto(c: Config): seq<Token> {
    var a := c.amounts;
    var contrast := if a.contrast > 0.0 then a.contrast else 1.0;
    var sat := if a.saturation > 0.0 then a.saturation else 1.0;
    AutoChain(a.nrLuma > 0.0 || a.nrChroma > 0.0, c.FrcOn(), a.sharpen > 0.0,
              a.brightness != 0.0 || contrast != 1.0 || sat != 1.0 || a.hue != 0.0,
              a.grain > 0.0, a.delayVideo > 0.0 || a.delayAudio > 0.0)
  }

  function DeriveChain(c: Config): seq<Token> {
    var f := Trim(c.filters);
    if f != "" then ExplicitChain(ReadAll(Trimmed(Split(f))), c.FrcOn()) else PanelAuto(c)
  }

  // ----- The engine -----

  function Clamp(ms: real): real {
    if 0.0 <= ms <= 1000.0 then ms else if ms > 0.0 then 1000.0 else 0.0
  }

  function EngineAuto(c: Config): seq<Token> {
    var a := c.amounts;
    var contrast := if a.contrast <= 0.0 then 1.0 else a.contrast;
    var sat := if a.saturation <= 0.0 then 1.0 else a.saturation;
    AutoChain(a.nrLuma > 0.0 || a.nrChroma > 0.0, FrcMode(c) > 0, a.sharpen > 0.0,
              a.brightness != 0.0 || contrast != 1.0 || sat != 1.0 || a.hue != 0.0,
              a.grain > 0.0, Clamp(a.delayVideo) > 0.0 || Clamp(a.delayAudio) > 0.0)
  }

  /** The mode that the control daemon hands to the engine. */
  function FrcMode(c: Config): int {
    if c.frcMode > 0 then c.frcMode else if c.frc then 1 else 0
  }

  function EngineTokens(c: Config): seq<Token> {
    if c.filters == "" then EngineAuto(c) else ReadAll(Lines(c.filters))
  }

  /** An operator's unique name: its token and how many of that token came before it. */
  datatype Name = Name(token: Token, nth: nat)

  function CountOf(ts: seq<Token>, t: Token): nat {
    if ts == [] then 0 else CountOf(ts[..|ts| - 1], t) + (if ts[|ts| - 1] == t then 1 else 0)
  }

  predicate Composed(t: Token, withFrc: bool) {
    IsOp(t) && (t != Frc || withFrc)
  }

  /** The operators that the tokens lead to, in order, before the appended scale. */
  function Ops(ts: seq<Token>, withFrc: bool): (ops: seq<Name>)
    ensures forall i :: 0 <= i < |ops| ==> Composed(ops[i].token, withFrc)
  {
    if ts == [] then []
    else
      var n := |ts| - 1;
      Ops(ts[..n], withFrc) + if Composed(ts[n], withFrc) then [Name(ts[n], CountOf(ts[..n], ts[n]))] else []
  }

  function Chain(ts: seq<Token>, withFrc: bool): (ops: seq<Name>) {
    Ops(ts, withFrc) + if Scale in ts then [] else [Name(Scale, 0)]
  }

  /** The composition loop: the names in order, and a map that counts what was seen. */
  method Compose(ts: seq<Token>, withFrc: bool) returns (chain: seq<Name>)
    ensures chain == Chain(ts, withFrc)
  {
    chain := [];
    var seen: map<Token, nat> := map[];
    for i := 0 to |ts|
      invariant chain == Ops(ts[..i], withFrc)
      invariant Counted(seen, ts[..i], NotEmpty())
    {
      var tok := ts[i];
      OpsNext(ts, i, withFrc);
      ComposedIs(tok, withFrc);
      if tok == Unknown("") {
        CountedNext(seen, ts[..i], tok, ts[..i + 1], NotEmpty());
        continue;
      }
      var nth;
      nth, seen := CountToken(ts, i, seen, NotEmpty());
      if tok == Frc {
        if withFrc { chain := chain + [Name(tok, nth)]; }
      } else if IsFilter(tok) {
        chain := chain + [Name(tok, nth)];
      }
    }
    assert ts[..|ts|] == ts;
    if Scale !in seen { chain := chain + [Name(Scale, 0)]; }
  }

  /** The frame operators besides rate conversion, as the loop compares them. */
  predicate IsFilter(t: Token) {
    t in {Scale, Sharpen, ProcAmp, Nr, Grain}
  }

  lemma {:induction false} ComposedIs(t: Token, withFrc: bool)
    ensures Composed(t, withFrc) <==> if t == Frc then withFrc else IsFilter(t)
    ensures IsOp(t) <==> t == Frc || IsFilter(t)
    ensures Composed(t, withFrc) ==> t != Unknown("")
  {
  }

  function NotEmpty(): Token -> bool {
    (t: Token) => t != Unknown("")
  }

  function OpTokens(): Token -> bool {
    (t: Token) => IsOp(t)
  }

  lemma {:induction false} CountedNext(
    seen: map<Token, nat>, before: seq<Token>, t: Token, after: seq<Token>, which: Token -> bool)
    requires Counted(seen, before, which) && after == before + [t]
    ensures Counted(if which(t) then seen[t := CountOf(before, t) + 1] else seen, after, which)
  {
    assert after[..|after| - 1] == before;
  }

  lemma {:induction false} OpsNext(ts: seq<Token>, i: nat, withFrc: bool)
    requires i < |ts|
    ensures Ops(ts[..i + 1], withFrc)
         == if Composed(ts[i], withFrc) then Ops(ts[..i], withFrc) + [Name(ts[i], CountOf(ts[..i], ts[i]))]
            else Ops(ts[..i], withFrc)
  {
    assert ts[..i + 1][..i] == ts[..i] && ts[..i + 1][i] == ts[i];
  }

  /** The map counts the tokens of `ts` that `which` picks, and no others. */
  ghost predicate Counted(seen: map<Token, nat>, ts: seq<Token>, which: Token -> bool) {
    && (forall t :: t in seen <==> t in ts && which(t))
    && (forall t :: t in seen ==> seen[t] == CountOf(ts, t))
  }

  method CountSeen(seen: map<Token, nat>, ghost ts: seq<Token>, t: Token, ghost which: Token -> bool) returns (n: nat)
    requires Counted(seen, ts, which) && which(t)
    ensures n == CountOf(ts, t)
  {
    if t in seen { return seen[t]; }
    NoneCounted(ts, t);
    n := 0;
  }

  /** One more token counted; its number is how many of it came before. */
  method CountToken(ts: seq<Token>, i: nat, seen: map<Token, nat>, ghost which: Token -> bool)
    returns (nth: nat, seen': map<Token, nat>)
    requires i < |ts| && Counted(seen, ts[..i], which) && which(ts[i])
    ensures nth == CountOf(ts[..i], ts[i]) && Counted(seen', ts[..i + 1], which)
  {
    nth := CountSeen(seen, ts[..i], ts[i], which);
    seen' := seen[ts[i] := nth + 1];
    CountedNext(seen, ts[..i], ts[i], ts[..i + 1], which);
  }

  lemma {:induction false} NoneCounted(ts: seq<Token>, t: Token)
    requires t !in ts
    ensures CountOf(ts, t) == 0
  {
    if ts != [] {
      NoneCounted(ts[..|ts| - 1], t);
    }
  }

  // ----- Names as text -----

  function Digit(d: nat): char
    requires d < 10
  {
    '0' + d as char
  }

  function Decimal(n: nat): (s: string)
    ensures s != "" && forall i :: 0 <= i < |s| ==> '0' <= s[i] <= '9'
  {
    if n < 10 then [Digit(n)] else Decimal(n / 10) + [Digit(n % 10)]
  }

  function Value(s: string): int {
    if s == "" then 0 else Value(s[..|s| - 1]) * 10 + (s[|s| - 1] as int - '0' as int)
  }

  lemma {:induction false} DecimalReads(n: nat)
    ensures Value(Decimal(n)) == n
  {
    if n < 10 {
      assert [Digit(n)][..0] == "";
    } else {
      DecimalReads(n / 10);
      assert Decimal(n)[..|Decimal(n)| - 1] == Decimal(n / 10);
    }
  }

  /** The name that the operator gets: its token, and from the second on its number. */
  function NameText(name: Name): string {
    Text(name.token) + Numeral(name)
  }

  function Numeral(name: Name): string {
    if name.nth == 0 then "" else Decimal(name.nth + 1)
  }

  /** The part of a text before its first digit. */
  function Letters(s: string): string {
    if s == "" || '0' <= s[0] <= '9' then "" else [s[0]] + Letters(s[1..])
  }

  lemma {:induction false} LettersOf(t: string, d: string)
    requires forall i :: 0 <= i < |t| ==> !('0' <= t[i] <= '9')
    requires d == "" || '0' <= d[0] <= '9'
    ensures Letters(t + d) == t
  {
    if t != "" {
      LettersOf(t[1..], d);
      assert (t + d)[1..] == t[1..] + d;
    } else {
      assert t + d == d;
    }
  }

  lemma {:induction false} TokenHasNoDigit(t: Token)
    requires Known(t)
    ensures forall i :: 0 <= i < |Text(t)| ==> !('0' <= Text(t)[i] <= '9')
  {
  }

  /** Different operators have different texts: "nr", "nr2", ... and no token ends in a digit. */
  lemma {:induction false} NameTextsDiffer(a: Name, b: Name)
    requires Known(a.token) && Known(b.token) && NameText(a) == NameText(b)
    ensures a == b
  {
    NameSplits(a);
    NameSplits(b);
    ReadText(a.token);
    ReadText(b.token);
    assert Numeral(a) == NameText(a)[|Text(a.token)|..] == Numeral(b);
    NumeralReads(a);
    NumeralReads(b);
  }

  lemma {:induction false} NameSplits(name: Name)
    requires Known(name.token)
    ensures Letters(NameText(name)) == Text(name.token)
  {
    TokenHasNoDigit(name.token);
    LettersOf(Text(name.token), Numeral(name));
  }

  lemma {:induction false} NumeralReads(name: Name)
    ensures if name.nth == 0 then Numeral(name) == "" else Numeral(name) != "" && Value(Numeral(name)) == name.nth + 1
  {
    DecimalReads(name.nth + 1);
  }

  /** The names of a chain are unique, as the operator graph requires, and so are their texts. */
  lemma {:induction false} NamesUnique(ts: seq<Token>, withFrc: bool)
    ensures var chain := Chain(ts, withFrc);
            forall i, j :: 0 <= i < j < |chain| ==>
              chain[i] != chain[j] && NameText(chain[i]) != NameText(chain[j])
  {
    var chain := Chain(ts, withFrc);
    OpsUnique(ts, withFrc);
    forall i, j | 0 <= i < j < |chain|
      ensures chain[i] != chain[j] && NameText(chain[i]) != NameText(chain[j])
    {
      if NameText(chain[i]) == NameText(chain[j]) {
        NameTextsDiffer(chain[i], chain[j]);
      }
    }
  }

  ghost predicate Unique(ops: seq<Name>, ts: seq<Token>) {
    && (forall i :: 0 <= i < |ops| ==> ops[i].token in ts && ops[i].nth < CountOf(ts, ops[i].token))
    && (forall i, j :: 0 <= i < j < |ops| ==> ops[i] != ops[j])
  }

  lemma {:induction false} OpsUnique(ts: seq<Token>, withFrc: bool)
    ensures Unique(Ops(ts, withFrc), ts)
  {
    if ts != [] {
      var n := |ts| - 1;
      var before := Ops(ts[..n], withFrc);
      OpsUnique(ts[..n], withFrc);
      forall i | 0 <= i < |before|
        ensures before[i].token in ts && before[i].nth < CountOf(ts, before[i].token)
        ensures before[i] != Name(ts[n], CountOf(ts[..n], ts[n]))
      {
      }
    }
  }

  // ----- The two agree -----

  function TokensOf(ops: seq<Name>): (ts: seq<Token>)
    ensures |ts| == |ops| && forall i :: 0 <= i < |ts| ==> ts[i] == ops[i].token
  {
    seq(|ops|, i requires 0 <= i < |ops| => ops[i].token)
  }

  function ComposedBy(withFrc: bool): Token -> bool {
    (t: Token) => Composed(t, withFrc)
  }

  lemma {:induction false} OpsTokens(ts: seq<Token>, withFrc: bool)
    ensures TokensOf(Ops(ts, withFrc)) == Kept(ts, ComposedBy(withFrc))
  {
    if ts != [] {
      var n := |ts| - 1;
      OpsTokens(ts[..n], withFrc);
      KeptAppend(ts[..n], [ts[n]], ComposedBy(withFrc));
      assert ts[..n] + [ts[n]] == ts;
      assert [ts[n]][1..] == [];
    }
  }

  /** The dashboard's explicit chain without its marker: the composed tokens, once each, and a scale in any case. */
  lemma {:induction false} ExplicitOps(ts: seq<Token>, frcOn: bool)
    ensures Kept(ExplicitChain(ts, frcOn), NotDelay())
         == Distinct(Kept(ts, ComposedBy(frcOn))) + Tail(ts)
    ensures Delay in ExplicitChain(ts, frcOn) <==> Delay in ts
  {
    var known := Kept(ts, KnownTokens());
    var ch := Kept(Distinct(known), FrcKept(frcOn));
    var both := (t: Token) => FrcKept(frcOn)(t) && NotDelay()(t);
    KeptTwice(Distinct(known), FrcKept(frcOn), NotDelay(), both);
    KeptFresh(known, {}, both);
    KeptTwice(ts, KnownTokens(), both, ComposedBy(frcOn));
    assert forall t :: t in ch <==> t in ts && Known(t) && (t != Frc || frcOn);
    ScaleAppended(ch);
    assert Tail(ch) == Tail(ts);
  }

  lemma {:induction false} ScaleAppended(ch: seq<Token>)
    ensures Kept(WithScale(ch), NotDelay()) == Kept(ch, NotDelay()) + Tail(ch)
    ensures Delay in WithScale(ch) <==> Delay in ch
  {
    KeptAppend(ch, [Scale], NotDelay());
    assert [Scale][1..] == [];
  }

  /** For a list of trimmed tokens: what runs is what is shown, exactly when no composed token repeats. */
  lemma {:induction false} ExplicitAgrees(ts: seq<Token>, frcOn: bool)
    ensures TokensOf(Chain(ts, frcOn)) == Kept(ExplicitChain(ts, frcOn), NotDelay())
       <==> NoDup(Kept(ts, ComposedBy(frcOn)))
  {
    ChainTokens(ts, frcOn);
    ExplicitOps(ts, frcOn);
    SplitAgrees(Kept(ts, ComposedBy(frcOn)), Tail(ts));
  }

  /** An empty last piece makes no difference. */
  lemma {:induction false} LinesSame(s: string, frcOn: bool)
    ensures Kept(ReadAll(Lines(s)), ComposedBy(frcOn)) == Kept(ReadAll(Split(s)), ComposedBy(frcOn))
    ensures forall t :: Known(t) ==> (t in ReadAll(Lines(s)) <==> t in ReadAll(Split(s)))
  {
    var texts := Split(s);
    var n := |texts| - 1;
    if texts[n] == "" {
      assert ReadAll(texts) == ReadAll(texts[..n]) + [Unknown("")];
      KeptAppend(ReadAll(texts[..n]), [Unknown("")], ComposedBy(frcOn));
      assert [Unknown("")][1..] == [];
    }
  }

  lemma {:induction false} AutoSame(c: Config)
    ensures EngineAuto(c) == PanelAuto(c)
  {
  }

  /** The automatic chain is the part of the catalogue that is active. */
  lemma {:induction false} AutoIsKept(nr: bool, frc: bool, sharpen: bool, procamp: bool, grain: bool, delay: bool)
    ensures AutoOk(AutoChain(nr, frc, sharpen, procamp, grain, delay), frc)
  {
    AutoFront(nr, frc, sharpen);
    var s := If(nr, Nr) + If(frc, Frc) + [Scale] + If(sharpen, Sharpen);
    AddIf(s, procamp, ProcAmp);
    AddIf(s + If(procamp, ProcAmp), grain, Grain);
    AddIf(s + If(procamp, ProcAmp) + If(grain, Grain), delay, Delay);
  }

  ghost predicate AutoOk(ts: seq<Token>, frcOn: bool) {
    NoDup(ts) && Scale in ts && (forall t :: t in ts ==> Known(t)) && (Frc in ts ==> frcOn)
  }

  lemma {:induction false} AutoFront(nr: bool, frc: bool, sharpen: bool)
    ensures var s := If(nr, Nr) + If(frc, Frc) + [Scale] + If(sharpen, Sharpen);
            AutoOk(s, frc) && forall t :: t in s ==> t in {Nr, Frc, Scale, Sharpen}
  {
    AddIf(If(nr, Nr), frc, Frc);
    AddIf(If(nr, Nr) + If(frc, Frc), true, Scale);
    AddIf(If(nr, Nr) + If(frc, Frc) + [Scale], sharpen, Sharpen);
  }

  lemma {:induction false} AddIf(a: seq<Token>, on: bool, t: Token)
    requires NoDup(a) && t !in a
    ensures NoDup(a + If(on, t)) && forall x :: x in a + If(on, t) <==> x in a || (on && x == t)
  {
  }

  // ----- Text with spaces: the dashboard trims it, the engine does not -----

  /** The trimmed and the verbatim tokens of a text, piece by piece. */
  function ShownTokens(text: string): seq<Token> {
    ReadAll(Trimmed(Split(text)))
  }

  function ReadTokens(text: string): seq<Token> {
    ReadAll(Split(text))
  }

  /** Where trimming makes a piece into a token that it is not verbatim. */
  predicate Padded(read: seq<Token>, shown: seq<Token>, i: nat)
    requires i < |read| == |shown|
  {
    Known(shown[i]) && read[i] != shown[i]
  }

  /** Trimming takes the spaces off both ends and nothing else. */
  lemma {:induction false} TrimIs(s: string) returns (i: nat, j: nat)
    ensures i <= j <= |s| && Trim(s) == s[i..j]
    ensures (forall k :: 0 <= k < i ==> Space(s[k])) && (forall k :: j <= k < |s| ==> Space(s[k]))
    ensures i < j ==> !Space(s[i]) && !Space(s[j - 1])
  {
    i := TrimLeftIs(s);
    j := TrimRightIs(s[i..]);
    j := i + j;
    assert s[i..][..j - i] == s[i..j];
    forall k | j <= k < |s|
      ensures Space(s[k])
    {
      assert s[i..][k - i] == s[k];
    }
    if i < j {
      assert s[i..][0] == s[i] && s[i..][j - i - 1] == s[j - 1];
    }
  }

  lemma {:induction false} TrimLeftIs(s: string) returns (i: nat)
    ensures i <= |s| && TrimLeft(s) == s[i..] && (forall k :: 0 <= k < i ==> Space(s[k]))
    ensures i < |s| ==> !Space(s[i])
  {
    i := 0;
    if s != "" && Space(s[0]) {
      i := TrimLeftIs(s[1..]);
      assert s[1..][i..] == s[i + 1..];
      forall k | 0 < k < i + 1
        ensures Space(s[k])
      {
        assert s[1..][k - 1] == s[k];
      }
      i := i + 1;
    }
  }

  lemma {:induction false} TrimRightIs(s: string) returns (j: nat)
    ensures j <= |s| && TrimRight(s) == s[..j] && (forall k :: j <= k < |s| ==> Space(s[k]))
    ensures j > 0 ==> !Space(s[j - 1])
  {
    j := |s|;
    if s != "" && Space(s[|s| - 1]) {
      j := TrimRightIs(s[..|s| - 1]);
      assert s[..|s| - 1][..j] == s[..j];
      assert forall k :: j <= k < |s| - 1 ==> s[..|s| - 1][k] == s[k];
    } else {
      assert s[..j] == s;
    }
  }

  lemma {:induction false} TrimSpaceless(s: string)
    requires s == "" || (!Space(s[0]) && !Space(s[|s| - 1]))
    ensures Trim(s) == s
  {
  }

  lemma {:induction false} SplitClean(s: string)
    requires forall i :: 0 <= i < |s| ==> !Space(s[i])
    ensures Trimmed(Split(s)) == Split(s)
  {
    PiecesClean(s);
    forall i | 0 <= i < |Split(s)|
      ensures Trim(Split(s)[i]) == Split(s)[i]
    {
      TrimSpaceless(Split(s)[i]);
    }
  }

  lemma {:induction false} PiecesClean(s: string)
    requires forall i :: 0 <= i < |s| ==> !Space(s[i])
    ensures forall i, j :: 0 <= i < |Split(s)| && 0 <= j < |Split(s)[i]| ==> !Space(Split(s)[i][j])
  {
    if s != "" {
      PiecesClean(s[1..]);
    }
  }

  /** A piece that reads as a known filter has no space around it, and so trims to itself. */
  lemma {:induction false} VerbatimOrUnknown(text: string, i: nat)
    requires i < |Split(text)|
    ensures |ReadTokens(text)| == |ShownTokens(text)| == |Split(text)|
    ensures Known(ReadTokens(text)[i]) ==> ShownTokens(text)[i] == ReadTokens(text)[i]
  {
    var piece := Split(text)[i];
    if Known(Read(piece)) {
      ReadText(Read(piece));
      TrimSpaceless(piece);
    }
  }

  /** Trimming the whole text first changes no trimmed piece. */
  lemma {:induction false} TrimThenSplit(text: string)
    ensures Trimmed(Split(Trim(text))) == Trimmed(Split(text))
  {
    TrimLeftSplit(text);
    TrimRightSplit(TrimLeft(text));
  }

  lemma {:induction false} TrimLeftSplit(text: string)
    ensures Trimmed(Split(TrimLeft(text))) == Trimmed(Split(text))
  {
    if text != "" && Space(text[0]) {
      TrimLeftSplit(text[1..]);
      var rest := Split(text[1..]);
      assert Split(text) == [[text[0]] + rest[0]] + rest[1..];
      assert ([text[0]] + rest[0])[1..] == rest[0];
      assert Trim([text[0]] + rest[0]) == Trim(rest[0]);
    }
  }

  lemma {:induction false} TrimRightSplit(text: string)
    ensures Trimmed(Split(TrimRight(text))) == Trimmed(Split(text))
  {
    if text != "" && Space(text[|text| - 1]) {
      var front, c := text[..|text| - 1], text[|text| - 1];
      TrimRightSplit(front);
      assert front + [c] == text;
      SplitLast(front, c);
      TrimmedLast(Split(front), c);
    }
  }

  lemma {:induction false} TrimmedLast(ts: seq<string>, c: char)
    requires ts != [] && Space(c)
    ensures Trimmed(Longer(ts, c)) == Trimmed(ts)
  {
    TrimOne(ts[|ts| - 1], c);
  }

  /** The pieces with one more character at the end of the last one. */
  function Longer(ts: seq<string>, c: char): seq<string>
    requires ts != []
  {
    ts[..|ts| - 1] + [ts[|ts| - 1] + [c]]
  }

  lemma {:induction false} SplitLast(s: string, c: char)
    requires c != ','
    ensures Split(s + [c]) == Longer(Split(s), c)
  {
    if s == "" {
      SplitPiece([c], "");
      assert "" + [c] == [c];
    } else {
      SplitLast(s[1..], c);
      assert (s + [c])[1..] == s[1..] + [c];
      LongerBehind(s[0], Split(s[1..]), c);
    }
  }

  lemma {:induction false} LongerBehind(first: char, ts: seq<string>, c: char)
    requires ts != []
    ensures [""] + Longer(ts, c) == Longer([""] + ts, c)
    ensures [[first] + Longer(ts, c)[0]] + Longer(ts, c)[1..] == Longer([[first] + ts[0]] + ts[1..], c)
  {
    if |ts| == 1 {
      assert [first] + (ts[0] + [c]) == [first] + ts[0] + [c];
    }
  }

  /** A space at the end of a piece is trimmed away. */
  lemma {:induction false} TrimOne(s: string, c: char)
    requires Space(c)
    ensures Trim(s + [c]) == Trim(s)
  {
    TrimLeftOne(s, c);
    if TrimLeft(s) == "" {
      assert TrimLeft(s + [c]) == "";
    } else {
      assert (TrimLeft(s) + [c])[..|TrimLeft(s)|] == TrimLeft(s);
    }
  }

  lemma {:induction false} TrimLeftOne(s: string, c: char)
    requires Space(c)
    ensures TrimLeft(s + [c]) == if TrimLeft(s) == "" then "" else TrimLeft(s) + [c]
  {
    if s == "" {
      assert s + [c] == [c] && [c][1..] == "";
    } else if Space(s[0]) {
      TrimLeftOne(s[1..], c);
      assert (s + [c])[1..] == s[1..] + [c];
    }
  }

  /** What the engine composes and what the dashboard shows, token by token. */
  ghost predicate Agree(c: Config) {
    TokensOf(Chain(EngineTokens(c), FrcMode(c) > 0)) == Kept(DeriveChain(c), NotDelay())
  }

  /** For an explicit text, the two chains in terms of the same pieces. */
  lemma {:induction false} ExplicitForms(c: Config)
    requires Trim(c.filters) != ""
    ensures var read, shown, on := ReadTokens(c.filters), ShownTokens(c.filters), ComposedBy(c.FrcOn());
            && |read| == |shown|
            && TokensOf(Chain(EngineTokens(c), FrcMode(c) > 0)) == Kept(read, on) + Tail(read)
            && Kept(DeriveChain(c), NotDelay()) == Distinct(Kept(shown, on)) + Tail(shown)
            && (Delay in EngineTokens(c) <==> Delay in read) && (Delay in DeriveChain(c) <==> Delay in shown)
            && NoDup(Kept(EngineTokens(c), on)) == NoDup(Kept(read, on))
  {
    TrimThenSplit(c.filters);
    LinesSame(c.filters, c.FrcOn());
    ChainTokens(ReadAll(Lines(c.filters)), c.FrcOn());
    ExplicitOps(ShownTokens(c.filters), c.FrcOn());
    assert c.filters != "";
  }

  /**
   For a configured text, explicit or automatic, in which no filter name has spaces around it: the operators
   that the engine composes are the rows that the dashboard shows, in order and without the marker, exactly
   when no composed token repeats.
   */
  lemma {:induction false} PanelShowsChain(c: Config)
    requires c.filters == "" || Trim(c.filters) != ""
    requires forall i :: 0 <= i < |ReadTokens(c.filters)| ==> !Padded(ReadTokens(c.filters), ShownTokens(c.filters), i)
    ensures Agree(c) <==> NoDup(Kept(EngineTokens(c), ComposedBy(FrcMode(c) > 0)))
    ensures Delay in EngineTokens(c) <==> Delay in DeriveChain(c)
  {
    if c.filters == "" {
      AutoAgrees(c);
    } else {
      var read, shown := ReadTokens(c.filters), ShownTokens(c.filters);
      UnpaddedSame(c.filters, c.FrcOn());
      ExplicitForms(c);
      SplitAgrees(Kept(read, ComposedBy(c.FrcOn())), Tail(read));
    }
  }

  lemma {:induction false} UnpaddedSame(text: string, frcOn: bool)
    requires forall i :: 0 <= i < |ReadTokens(text)| ==> !Padded(ReadTokens(text), ShownTokens(text), i)
    ensures var read, shown := ReadTokens(text), ShownTokens(text);
            && Kept(read, ComposedBy(frcOn)) == Kept(shown, ComposedBy(frcOn))
            && Tail(read) == Tail(shown) && (Delay in read <==> Delay in shown)
  {
    var read, shown := ReadTokens(text), ShownTokens(text);
    forall i | 0 <= i < |read| && (Known(read[i]) || Known(shown[i]))
      ensures read[i] == shown[i]
    {
      VerbatimOrUnknown(text, i);
      assert !Padded(read, shown, i);
    }
    SameKept(read, shown, KnownTokens());
    SameKept(read, shown, ComposedBy(frcOn));
    SameTail(read, shown, KnownTokens());
    assert Delay in Kept(read, KnownTokens()) <==> Delay in Kept(shown, KnownTokens());
  }

  /** A list is shown without its repeats. */
  lemma {:induction false} SplitAgrees(k: seq<Token>, tail: seq<Token>)
    ensures k + tail == Distinct(k) + tail <==> NoDup(k)
  {
    FreshIsAll(k, {});
    if k + tail == Distinct(k) + tail {
      assert |k| == |Distinct(k)|;
      assert k == (k + tail)[..|k|] == (Distinct(k) + tail)[..|k|] == Distinct(k);
    }
  }

  /** Pieces that differ only where neither is kept. */
  lemma {:induction false} SameKept(read: seq<Token>, shown: seq<Token>, keep: Token -> bool)
    requires |read| == |shown|
    requires forall i :: 0 <= i < |read| && (keep(read[i]) || keep(shown[i])) ==> read[i] == shown[i]
    ensures Kept(read, keep) == Kept(shown, keep)
  {
    if read != [] {
      SameKept(read[1..], shown[1..], keep);
    }
  }

  /**
   Where the trimmed text repeats no operator: what runs is what is shown exactly when no operator's name has
   spaces around it, except a scale at the end, which the engine appends anyway.
   */
  lemma {:induction false} PaddedNamesShow(c: Config)
    requires Trim(c.filters) != "" && NoDup(Kept(ShownTokens(c.filters), ComposedBy(c.FrcOn())))
    ensures Agree(c) <==> OnlyLastScalePadded(ReadTokens(c.filters), ShownTokens(c.filters), ComposedBy(c.FrcOn()))
  {
    var read, shown, op := ReadTokens(c.filters), ShownTokens(c.filters), ComposedBy(c.FrcOn());
    PiecesRead(c.filters, c.FrcOn());
    PaddedAgrees(read, shown, op);
    ExplicitForms(c);
    FreshIsAll(Kept(shown, op), {});
  }

  lemma {:induction false} PiecesRead(text: string, frcOn: bool)
    ensures ReadOrUnknown(ReadTokens(text), ShownTokens(text), ComposedBy(frcOn))
  {
    forall i | 0 <= i < |ReadTokens(text)| && Known(ReadTokens(text)[i])
      ensures ReadTokens(text)[i] == ShownTokens(text)[i]
    {
      VerbatimOrUnknown(text, i);
    }
  }

  lemma {:induction false} PaddedAgrees(read: seq<Token>, shown: seq<Token>, op: Token -> bool)
    requires ReadOrUnknown(read, shown, op) && NoDup(Kept(shown, op))
    ensures Kept(read, op) + Tail(read) == Kept(shown, op) + Tail(shown) <==> OnlyLastScalePadded(read, shown, op)
  {
    if OnlyLastScalePadded(read, shown, op) {
      PaddedScaleShows(read, shown, op);
    } else {
      PaddedNameHides(read, shown, op);
    }
  }

  /** Every padded operator is a scale that no operator follows. */
  ghost predicate OnlyLastScalePadded(read: seq<Token>, shown: seq<Token>, op: Token -> bool)
    requires |read| == |shown|
  {
    forall i :: 0 <= i < |read| && op(shown[i]) && Padded(read, shown, i) ==>
      shown[i] == Scale && Kept(shown[i + 1..], op) == []
  }

  lemma {:induction false} SameTail(read: seq<Token>, shown: seq<Token>, keep: Token -> bool)
    requires keep(Scale) && Kept(read, keep) == Kept(shown, keep)
    ensures Tail(read) == Tail(shown)
  {
    assert Scale in Kept(read, keep) <==> Scale in Kept(shown, keep);
  }

  /** The tokens read are those shown, or unknown. */
  ghost predicate ReadOrUnknown(read: seq<Token>, shown: seq<Token>, op: Token -> bool) {
    && |read| == |shown| && (forall t :: op(t) ==> Known(t)) && op(Scale)
    && forall i :: 0 <= i < |read| && Known(read[i]) ==> read[i] == shown[i]
  }

  lemma {:induction false} PaddedScaleShows(read: seq<Token>, shown: seq<Token>, op: Token -> bool)
    requires ReadOrUnknown(read, shown, op)
    requires NoDup(Kept(shown, op)) && OnlyLastScalePadded(read, shown, op)
    ensures Kept(read, op) + Tail(read) == Kept(shown, op) + Tail(shown)
  {
    if i :| 0 <= i < |read| && op(shown[i]) && Padded(read, shown, i) {
      assert shown[i] == Scale && Kept(shown[i + 1..], op) == [];
      assert !op(read[i]);
      BeforeScale(read, shown, op, i);
      NothingKept(read, shown, i + 1, op);
      ScaleAppendedAt(read, shown, op, i);
    } else {
      SameKept(read, shown, op);
      SameTail(read, shown, op);
    }
  }

  lemma {:induction false} ScaleAppendedAt(read: seq<Token>, shown: seq<Token>, op: Token -> bool, i: nat)
    requires i < |read| == |shown| && op(Scale) && shown[i] == Scale && !op(read[i]) && NoDup(Kept(shown, op))
    requires Kept(read[i + 1..], op) == [] && Kept(shown[i + 1..], op) == []
    requires Kept(read[..i], op) == Kept(shown[..i], op)
    ensures Kept(read, op) + Tail(read) == Kept(shown, op) + Tail(shown)
  {
    KeptBut(read, i, op);
    KeptWith(shown, i, op);
    AppendedScale(read, shown, Kept(shown[..i], op), op);
  }

  lemma {:induction false} KeptBut(s: seq<Token>, i: nat, keep: Token -> bool)
    requires i < |s| && !keep(s[i]) && Kept(s[i + 1..], keep) == []
    ensures Kept(s, keep) == Kept(s[..i], keep)
  {
    KeptAround(s, i, keep);
  }

  lemma {:induction false} KeptWith(s: seq<Token>, i: nat, keep: Token -> bool)
    requires i < |s| && keep(s[i]) && Kept(s[i + 1..], keep) == []
    ensures Kept(s, keep) == Kept(s[..i], keep) + [s[i]]
  {
    KeptAround(s, i, keep);
  }

  lemma {:induction false} BeforeScale(read: seq<Token>, shown: seq<Token>, op: Token -> bool, i: nat)
    requires ReadOrUnknown(read, shown, op) && OnlyLastScalePadded(read, shown, op)
    requires i < |read| && op(shown[i])
    ensures Kept(read[..i], op) == Kept(shown[..i], op)
  {
    forall j | 0 <= j < i && op(shown[j])
      ensures read[j] == shown[j]
    {
      assert shown[j + 1..][i - j - 1] == shown[i];
      assert shown[i] in Kept(shown[j + 1..], op);
      assert !Padded(read, shown, j);
    }
    SameKept(read[..i], shown[..i], op);
  }

  lemma {:induction false} NothingKept(read: seq<Token>, shown: seq<Token>, from: nat, op: Token -> bool)
    requires ReadOrUnknown(read, shown, op) && from <= |read| && Kept(shown[from..], op) == []
    ensures Kept(read[from..], op) == []
  {
    forall t | t in read[from..]
      ensures !op(t)
    {
      var j :| from <= j < |read| && read[j] == t;
      assert shown[from..][j - from] == shown[j];
      assert t in shown[from..] && op(t) <==> t in Kept(shown[from..], op);
    }
    KeptNone(read[from..], op);
  }

  lemma {:induction false} AppendedScale(read: seq<Token>, shown: seq<Token>, k: seq<Token>, op: Token -> bool)
    requires op(Scale) && Kept(read, op) == k && Kept(shown, op) == k + [Scale] && NoDup(k + [Scale])
    ensures Tail(read) == [Scale] && Tail(shown) == []
  {
    assert (k + [Scale])[|k|] == Scale;
    assert Scale in Kept(shown, op);
    assert k + [Scale] + [] == k + [Scale];
    OnlyHere(k, Scale, []);
  }

  lemma {:induction false} PaddedNameHides(read: seq<Token>, shown: seq<Token>, op: Token -> bool)
    requires ReadOrUnknown(read, shown, op)
    requires NoDup(Kept(shown, op)) && !OnlyLastScalePadded(read, shown, op)
    ensures Kept(read, op) + Tail(read) != Kept(shown, op) + Tail(shown)
  {
    var i :| 0 <= i < |read| && op(shown[i]) && Padded(read, shown, i)
      && !(shown[i] == Scale && Kept(shown[i + 1..], op) == []);
    var t, a, b := shown[i], Kept(shown[..i], op), Kept(shown[i + 1..], op);
    KeptAround(shown, i, op);
    assert Kept(shown, op) == a + [t] + b;
    OnlyHere(a, t, b);
    NotRead(read, shown, i, op);
    if t != Scale {
      assert (a + [t] + b)[|a|] == t;
      assert t !in Kept(read, op) + Tail(read);
      assert t in Kept(shown, op) + Tail(shown);
    } else {
      assert Tail(read) == [Scale] && Scale in shown && Tail(shown) == [];
      LastDiffers(Kept(read, op), a + [t], b, t);
      assert Kept(shown, op) + Tail(shown) == a + [t] + b;
    }
  }

  lemma {:induction false} OnlyHere(a: seq<Token>, t: Token, b: seq<Token>)
    requires NoDup(a + [t] + b)
    ensures t !in a && t !in b
  {
    var s := a + [t] + b;
    assert s[|a|] == t;
    forall j | 0 <= j < |a|
      ensures a[j] != t
    {
      assert s[j] == a[j];
    }
    forall j | 0 <= j < |b|
      ensures b[j] != t
    {
      assert s[|a| + 1 + j] == b[j];
    }
  }

  lemma {:induction false} NotRead(read: seq<Token>, shown: seq<Token>, i: nat, op: Token -> bool)
    requires ReadOrUnknown(read, shown, op) && i < |read| && op(shown[i]) && Padded(read, shown, i)
    requires shown[i] !in Kept(shown[..i], op) && shown[i] !in Kept(shown[i + 1..], op)
    ensures shown[i] !in read
  {
    assert shown[i] !in shown[..i] && shown[i] !in shown[i + 1..];
    forall j | 0 <= j < |read|
      ensures read[j] != shown[i]
    {
      if j < i {
        assert shown[..i][j] == shown[j];
      } else if j > i {
        assert shown[i + 1..][j - i - 1] == shown[j];
      }
    }
  }

  lemma {:induction false} LastDiffers(k: seq<Token>, a: seq<Token>, b: seq<Token>, t: Token)
    requires b != [] && t !in b
    ensures k + [t] != a + b
  {
    assert (k + [t])[|k|] == t;
    assert |k| + 1 == |a + b| ==> (a + b)[|k|] == b[|b| - 1];
  }

  /** Blank text is no text to the dashboard, which shows the automatic chain; the engine runs only a scale. */
  lemma {:induction false} BlankTextRunsScale(c: Config)
    requires c.filters != "" && Trim(c.filters) == ""
    ensures TokensOf(Chain(EngineTokens(c), FrcMode(c) > 0)) == [Scale] && DeriveChain(c) == PanelAuto(c)
  {
    BlankIsSpaces(c.filters);
    SplitPiece(c.filters, "");
    assert EngineTokens(c) == [Unknown(c.filters)];
    assert [Unknown(c.filters)][1..] == [];
    ChainTokens(EngineTokens(c), FrcMode(c) > 0);
  }

  lemma {:induction false} BlankIsSpaces(s: string)
    requires Trim(s) == ""
    ensures forall i :: 0 <= i < |s| ==> Space(s[i])
  {
    if s != "" && Space(s[0]) {
      BlankIsSpaces(s[1..]);
      assert s == [s[0]] + s[1..];
    } else {
      TrimRightBlank(s);
    }
  }

  lemma {:induction false} TrimRightBlank(s: string)
    requires TrimRight(s) == ""
    ensures forall i :: 0 <= i < |s| ==> Space(s[i])
  {
    if s != "" {
      TrimRightBlank(s[..|s| - 1]);
    }
  }

  function Tail(ts: seq<Token>): seq<Token> {
    if Scale in ts then [] else [Scale]
  }

  lemma {:induction false} ChainTokens(ts: seq<Token>, withFrc: bool)
    ensures TokensOf(Chain(ts, withFrc)) == Kept(ts, ComposedBy(withFrc)) + Tail(ts)
  {
    OpsTokens(ts, withFrc);
  }

  lemma {:induction false} AutoAgrees(c: Config)
    requires c.filters == ""
    ensures var ts, on := EngineTokens(c), FrcMode(c) > 0;
            && TokensOf(Chain(ts, on)) == Kept(DeriveChain(c), NotDelay())
            && NoDup(Kept(ts, ComposedBy(on))) && ts == DeriveChain(c)
  {
    AutoSame(c);
    AutoKnown(c);
    AutoOps(PanelAuto(c), c.FrcOn());
  }

  lemma {:induction false} AutoOps(ts: seq<Token>, frcOn: bool)
    requires AutoOk(ts, frcOn)
    ensures TokensOf(Chain(ts, frcOn)) == Kept(ts, NotDelay()) && NoDup(Kept(ts, ComposedBy(frcOn)))
  {
    ChainTokens(ts, frcOn);
    KeptNoDup(ts, ComposedBy(frcOn));
    KeptSame(ts, ComposedBy(frcOn), NotDelay());
  }

  lemma {:induction false} AutoKnown(c: Config)
    ensures AutoOk(PanelAuto(c), c.FrcOn())
  {
    var a := c.amounts;
    var contrast := if a.contrast > 0.0 then a.contrast else 1.0;
    var sat := if a.saturation > 0.0 then a.saturation else 1.0;
    AutoIsKept(a.nrLuma > 0.0 || a.nrChroma > 0.0, c.FrcOn(), a.sharpen > 0.0,
               a.brightness != 0.0 || contrast != 1.0 || sat != 1.0 || a.hue != 0.0,
               a.grain > 0.0, a.delayVideo > 0.0 || a.delayAudio > 0.0);
  }

  lemma {:induction false} KeptSame(s: seq<Token>, p: Token -> bool, q: Token -> bool)
    requires forall t :: t in s ==> p(t) == q(t)
    ensures Kept(s, p) == Kept(s, q)
  {
    if s != [] {
      KeptSame(s[1..], p, q);
    }
  }

  // ----- What the automatic chain is made of -----

  /** The stages that a configuration calls for; amounts at or below zero, and a neutral gain, call for none. */
  predicate Active(c: Config, t: Token) {
    var a := c.amounts;
    match t
    case Nr => a.nrLuma > 0.0 || a.nrChroma > 0.0
    case Frc => c.frcMode > 0 || c.frc
    case Scale => true
    case Sharpen => a.sharpen > 0.0
    case ProcAmp =>
      a.brightness != 0.0 || (a.contrast > 0.0 && a.contrast != 1.0) || (a.saturation > 0.0 && a.saturation != 1.0)
      || a.hue != 0.0
    case Grain => a.grain > 0.0
    case Delay => a.delayVideo > 0.0 || a.delayAudio > 0.0
    case Unknown(_) => false
  }

  function ActiveIn(c: Config): Token -> bool {
    (t: Token) => Active(c, t)
  }

  /**
   The automatic chain is the active stages in one order: noise reduction and rate conversion at the size of the
   input, then the scale, then sharpening, picture controls and grain at the size of the output.
   */
  lemma {:induction false} AutoOrder(c: Config)
    ensures EngineAuto(c) == Kept([Nr, Frc, Scale, Sharpen, ProcAmp, Grain, Delay], ActiveIn(c))
  {
    AutoOnes(c, ActiveIn(c));
    KeptOfSeven([Nr, Frc, Scale, Sharpen, ProcAmp, Grain, Delay], ActiveIn(c));
  }

  lemma {:induction false} KeptOfSeven(s: seq<Token>, keep: Token -> bool)
    requires |s| == 7
    ensures Kept(s, keep) == [] + KeptOne(s[0], keep) + KeptOne(s[1], keep) + KeptOne(s[2], keep) + KeptOne(s[3], keep)
                             + KeptOne(s[4], keep) + KeptOne(s[5], keep) + KeptOne(s[6], keep)
  {
    KeptUpTo(s, 0, keep);
    KeptUpTo(s, 1, keep);
    KeptUpTo(s, 2, keep);
    KeptUpTo(s, 3, keep);
    KeptUpTo(s, 4, keep);
    KeptUpTo(s, 5, keep);
    KeptUpTo(s, 6, keep);
    assert s[..7] == s && s[..0] == [];
  }

  lemma {:induction false} KeptUpTo(s: seq<Token>, k: nat, keep: Token -> bool)
    requires k < |s|
    ensures Kept(s[..k + 1], keep) == Kept(s[..k], keep) + KeptOne(s[k], keep)
  {
    assert s[..k + 1] == s[..k] + [s[k]];
    KeptLast(s[..k], s[k], keep);
  }

  lemma {:induction false} AutoOnes(c: Config, on: Token -> bool)
    requires on == ActiveIn(c)
    ensures EngineAuto(c) == [] + KeptOne(Nr, on) + KeptOne(Frc, on) + KeptOne(Scale, on) + KeptOne(Sharpen, on)
                             + KeptOne(ProcAmp, on) + KeptOne(Grain, on) + KeptOne(Delay, on)
  {
    AsIf(Nr, on);
    AsIf(Frc, on);
    AsIf(Scale, on);
    AsIf(Sharpen, on);
    AsIf(ProcAmp, on);
    AsIf(Grain, on);
    AsIf(Delay, on);
    EngineActive(c, on);
    assert [] + If(on(Nr), Nr) == If(on(Nr), Nr);
  }

  lemma {:induction false} AsIf(t: Token, on: Token -> bool)
    ensures KeptOne(t, on) == If(on(t), t)
  {
  }

  lemma {:induction false} EngineActive(c: Config, on: Token -> bool)
    requires on == ActiveIn(c)
    ensures on(Scale) && If(on(Scale), Scale) == [Scale]
    ensures EngineAuto(c) == AutoChain(on(Nr), on(Frc), on(Sharpen), on(ProcAmp), on(Grain), on(Delay))
  {
  }

  lemma {:induction false} KeptLast(s: seq<Token>, t: Token, keep: Token -> bool)
    ensures Kept(s + [t], keep) == Kept(s, keep) + KeptOne(t, keep)
  {
    KeptAppend(s, [t], keep);
    KeptFirst(t, [], keep);
    assert [t] + [] == [t] && KeptOne(t, keep) + [] == KeptOne(t, keep);
  }

  /** An operator's number is how many operators before it in the chain have its token. */
  lemma {:induction false} NumbersCount(ts: seq<Token>, withFrc: bool, j: nat)
    requires j < |Chain(ts, withFrc)|
    ensures var chain := Chain(ts, withFrc);
            chain[j].nth == CountOf(TokensOf(chain)[..j], chain[j].token)
  {
    var ops, chain := Ops(ts, withFrc), Chain(ts, withFrc);
    if j < |ops| {
      OpsNumbered(ts, withFrc, j);
      assert TokensOf(chain)[..j] == TokensOf(ops)[..j];
    } else {
      OpsCounted(ts, withFrc, Scale);
      NoneCounted(ts, Scale);
      assert TokensOf(chain)[..j] == TokensOf(ops);
    }
  }

  lemma {:induction false} OpsCounted(ts: seq<Token>, withFrc: bool, t: Token)
    requires Composed(t, withFrc)
    ensures CountOf(TokensOf(Ops(ts, withFrc)), t) == CountOf(ts, t)
  {
    if ts != [] {
      var n := |ts| - 1;
      var before, ops := Ops(ts[..n], withFrc), Ops(ts, withFrc);
      OpsCounted(ts[..n], withFrc, t);
      if Composed(ts[n], withFrc) {
        assert TokensOf(ops) == TokensOf(before) + [ts[n]];
        assert TokensOf(ops)[..|before|] == TokensOf(before);
      } else {
        assert ops == before;
      }
    }
  }

  lemma {:induction false} OpsNumbered(ts: seq<Token>, withFrc: bool, j: nat)
    requires j < |Ops(ts, withFrc)|
    ensures var ops := Ops(ts, withFrc);
            ops[j].nth == CountOf(TokensOf(ops)[..j], ops[j].token)
  {
    var n := |ts| - 1;
    var before, ops := Ops(ts[..n], withFrc), Ops(ts, withFrc);
    if j < |before| {
      OpsNumbered(ts[..n], withFrc, j);
      assert TokensOf(ops)[..j] == TokensOf(before)[..j];
    } else {
      OpsCounted(ts[..n], withFrc, ts[n]);
      assert TokensOf(ops)[..j] == TokensOf(before);
    }
  }

  /** The first operator of a token has its name, and the others have a number behind it. */
  lemma {:induction false} NameTexts()
    ensures NameText(Name(ProcAmp, 0)) == "procamp" && NameText(Name(ProcAmp, 1)) == "procamp2"
    ensures NameText(Name(Nr, 11)) == "nr12"
  {
    assert Decimal(1) == "1" && Decimal(12) == "1" + "2";
  }

  // ----- The operator that takes the burst of rate conversion -----

  datatype Stage = NoStage | Op(name: Name) | Pack

  /** The first rate converter of a list, or its length. */
  function FirstFrc(ops: seq<Name>): (i: nat)
    ensures i <= |ops| && (i < |ops| ==> ops[i].token == Frc)
    ensures forall j :: 0 <= j < i ==> ops[j].token != Frc
  {
    if ops == [] then 0 else if ops[0].token == Frc then 0 else FirstFrc(ops[1..]) + 1
  }

  /** What comes right after the first rate converter. */
  function AfterFrc(ops: seq<Name>): Stage {
    if FirstFrc(ops) >= |ops| then NoStage
    else if FirstFrc(ops) + 1 < |ops| then Op(ops[FirstFrc(ops) + 1])
    else Pack
  }

  /** The scan that announces, before any operator is made, which one needs a queue as deep as the burst. */
  method AnnounceSink(ts: seq<Token>, withFrc: bool) returns (sink: Stage)
    ensures sink == if withFrc then AfterFrc(Ops(ts, true)) else NoStage
  {
    if !withFrc { return NoStage; }
    var seen: map<Token, nat>, afterFrc, found := map[], false, None;
    for i := 0 to |ts|
      invariant Scanned(ts, i, seen, afterFrc)
    {
      seen, afterFrc, found := ScanToken(ts, i, seen, afterFrc);
      if found.Some? { return Op(found.value); }
    }
    assert ts[..|ts|] == ts;
    sink := if afterFrc then Pack else NoStage;
  }

  /** The tokens before `i` are counted, and a rate converter among them is the last operator so far. */
  ghost predicate Scanned(ts: seq<Token>, i: nat, seen: map<Token, nat>, afterFrc: bool)
    requires i <= |ts|
  {
    var ops := Ops(ts[..i], true);
    && Counted(seen, ts[..i], OpTokens())
    && FirstFrc(ops) == if afterFrc then |ops| - 1 else |ops|
  }

  /** One token of the scan; an operator after the rate converter ends it. */
  method ScanToken(ts: seq<Token>, i: nat, seen: map<Token, nat>, afterFrc: bool)
    returns (seen': map<Token, nat>, afterFrc': bool, found: Option<Name>)
    requires i < |ts| && Scanned(ts, i, seen, afterFrc)
    ensures found.None? ==> Scanned(ts, i + 1, seen', afterFrc')
    ensures found.Some? ==> AfterFrc(Ops(ts, true)) == Op(found.value)
  {
    var tok := ts[i];
    seen', afterFrc', found := seen, afterFrc, None;
    ComposedIs(tok, true);
    OpsNext(ts, i, true);
    if tok != Frc && !IsFilter(tok) {
      CountedNext(seen, ts[..i], tok, ts[..i + 1], OpTokens());
      return;
    }
    var nth;
    nth, seen' := CountToken(ts, i, seen, OpTokens());
    FirstFrcAppend(Ops(ts[..i], true), Name(tok, nth));
    if afterFrc {
      FoundAfter(ts, i, Ops(ts[..i], true), Name(tok, nth));
      found := Some(Name(tok, nth));
    } else if tok == Frc {
      afterFrc' := true;
    }
  }

  /** The operator right after a rate converter that was the last one so far. */
  lemma {:induction false} FoundAfter(ts: seq<Token>, i: nat, ops: seq<Name>, name: Name)
    requires i < |ts| && Ops(ts[..i + 1], true) == ops + [name] && FirstFrc(ops) + 1 == |ops|
    ensures AfterFrc(Ops(ts, true)) == Op(name)
  {
    FirstFrcAppend(ops, name);
    OpsPrefix(ts, i + 1);
  }

  lemma {:induction false} FirstFrcAppend(ops: seq<Name>, more: Name)
    ensures FirstFrc(ops + [more])
         == if FirstFrc(ops) < |ops| || more.token == Frc then FirstFrc(ops) else |ops| + 1
  {
    if ops == [] {
      assert ops + [more] == [more] && [more][1..] == [];
    } else {
      FirstFrcAppend(ops[1..], more);
      assert (ops + [more])[1..] == ops[1..] + [more];
    }
  }

  /** What is composed from the first tokens stays in front. */
  lemma {:induction false} OpsPrefix(ts: seq<Token>, i: nat)
    requires i <= |ts|
    ensures Ops(ts[..i], true) <= Ops(ts, true)
    ensures var ops := Ops(ts[..i], true);
            FirstFrc(ops) + 1 < |ops| ==> AfterFrc(Ops(ts, true)) == AfterFrc(ops)
    decreases |ts| - i
  {
    if i < |ts| {
      OpsPrefix(ts, i + 1);
      assert ts[..i + 1][..i] == ts[..i];
    } else {
      assert ts[..i] == ts;
    }
  }

  /**
   With rate conversion in the chain, the announced operator is the one composed right after it exactly when
   the list has a scale or another operator after it; if not, the engine appends the scale in between.
   */
  lemma {:induction false} SinkIsNext(ts: seq<Token>)
    requires Frc in ts
    ensures var ops := Ops(ts, true);
            && FirstFrc(ops) < |ops|
            && (AfterFrc(ops) == AfterFrc(Chain(ts, true)) <==> Scale in ts || FirstFrc(ops) + 1 < |ops|)
  {
    var ops := Ops(ts, true);
    OpsTokens(ts, true);
    assert Frc in Kept(ts, ComposedBy(true));
    var j :| 0 <= j < |ops| && TokensOf(ops)[j] == Frc;
    assert ops[j].token == Frc;
    if Scale in ts {
      assert Chain(ts, true) == ops;
    } else {
      FirstFrcAppend(ops, Name(Scale, 0));
    }
  }

  /** An explicit chain of rate conversion alone announces the packer, but a scale takes the burst. */
  lemma {:induction false} SinkCanMissScale()
    ensures AfterFrc(Ops([Frc], true)) == Pack && AfterFrc(Chain([Frc], true)) == Op(Name(Scale, 0))
  {
    assert [Frc][..0] == [];
    assert Ops([Frc], true) == [Name(Frc, 0)];
    FirstFrcAppend([Name(Frc, 0)], Name(Scale, 0));
  }

  /** The engine composes a repeated filter twice, where the dashboard shows it once. */
  lemma {:induction false} RepeatsDisagree()
    ensures TokensOf(Chain([ProcAmp, ProcAmp, Scale], false)) == [ProcAmp, ProcAmp, Scale]
    ensures ExplicitChain([ProcAmp, ProcAmp, Scale], false) == [ProcAmp, Scale]
  {
    var ts := [ProcAmp, ProcAmp, Scale];
    assert ts[1..] == [ProcAmp, Scale] && [ProcAmp, Scale][1..] == [Scale] && [Scale][1..] == [];
    ChainTokens(ts, false);
    KeptAll(ts, ComposedBy(false));
    KeptAll(ts, KnownTokens());
    assert Fresh(ts, {}) == [ProcAmp, Scale];
    KeptAll([ProcAmp, Scale], FrcKept(false));
  }
}
