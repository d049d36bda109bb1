/** The dashboard's filter rows: rebuilt from a configuration, and turned back into one. */
module FilterPanel {
  import opened TokenLists
  import opened FilterChain

  function EnabledIn(enabled: set<Token>): Token -> bool {
    (t: Token) => t in enabled
  }

  function NotIn(s: seq<Token>): Token -> bool {
    (t: Token) => t !in s
  }

  /** The rows in order, each filter once. */
  ghost predicate AllRows(order: seq<Token>) {
    NoDup(order) && forall t :: t in order <==> Known(t)
  }

  /** Lay the chain over the enabled rows, one after the other; what is left over goes to the end. */
  function Lay(base: seq<Token>, chain: seq<Token>, enabled: set<Token>): seq<Token> {
    if base == [] then chain
    else if base[0] in enabled && chain != [] then [chain[0]] + Lay(base[1..], chain[1..], enabled)
    else [base[0]] + Lay(base[1..], chain, enabled)
  }

  /** The order of the rows for a chain, given the saved order and the one on display. */
  function Rebuilt(order: seq<Token>, saved: seq<Token>, chain: seq<Token>): seq<Token> {
    var enabled := set t | t in chain;
    if saved != [] && Kept(saved, EnabledIn(enabled)) == chain then
      saved + Kept(CATALOG, NotIn(saved))
    else if order == [] || Kept(order, EnabledIn(enabled)) != chain then
      Lay(if order != [] then order else CATALOG, chain, enabled)
    else order
  }

  /** The saved rows that are known, each once. */
  function SavedRows(filterOrder: string): (saved: seq<Token>)
    ensures NoDup(saved) && forall t :: t in saved ==> Known(t)
  {
    Distinct(Kept(ReadAll(Trimmed(Split(filterOrder))), KnownTokens()))
  }

  class Panel {
    var order: seq<Token>
    var enabled: set<Token>

    constructor ()
      ensures order == CATALOG && enabled == {Scale}
    {
      order, enabled := CATALOG, {Scale};
    }

    /** Take over a configuration's chain and row order. */
    method FillForm(c: Config, filterOrder: string)
      modifies this
      ensures enabled == (set t | t in DeriveChain(c))
      ensures order == Rebuilt(old(order), SavedRows(filterOrder), DeriveChain(c))
    {
      var chain := DeriveChain(c);
      enabled := set t | t in chain;
      var saved := SavedRows(filterOrder);
      if saved != [] && Kept(saved, EnabledIn(enabled)) == chain {
        order := saved + Kept(CATALOG, NotIn(saved));
      } else if order == [] || Kept(order, EnabledIn(enabled)) != chain {
        order := LayRows(if order != [] then order else CATALOG, chain);
      }
    }

    method LayRows(base: seq<Token>, chain: seq<Token>) returns (rows: seq<Token>)
      ensures rows == Lay(base, chain, enabled)
    {
      rows := [];
      var k := 0;
      for i := 0 to |base|
        invariant 0 <= k <= |chain|
        invariant rows + Lay(base[i..], chain[k..], enabled) == Lay(base, chain, enabled)
      {
        LayNext(base, chain, enabled, i, k);
        if base[i] in enabled && k < |chain| {
          Assoc(rows, [chain[k]], Lay(base[i + 1..], chain[k + 1..], enabled));
          rows, k := rows + [chain[k]], k + 1;
        } else {
          Assoc(rows, [base[i]], Lay(base[i + 1..], chain[k..], enabled));
          rows := rows + [base[i]];
        }
      }
      rows := rows + chain[k..];
    }
  }

  lemma {:induction false} LayNext(base: seq<Token>, chain: seq<Token>, enabled: set<Token>, i: nat, k: nat)
    requires i < |base| && k <= |chain|
    ensures Lay(base[i..], chain[k..], enabled)
         == if base[i] in enabled && k < |chain| then [chain[k]] + Lay(base[i + 1..], chain[k + 1..], enabled)
            else [base[i]] + Lay(base[i + 1..], chain[k..], enabled)
  {
    assert base[i..][1..] == base[i + 1..];
    if k < |chain| {
      assert chain[k..][1..] == chain[k + 1..];
    }
  }

  // ----- The rebuilt rows -----

  lemma {:induction false} CatalogIsAll()
    ensures AllRows(CATALOG)
  {
    assert CATALOG[0] == Nr && CATALOG[1] == Frc && CATALOG[2] == Scale && CATALOG[3] == Sharpen;
    assert CATALOG[4] == ProcAmp && CATALOG[5] == Grain && CATALOG[6] == Delay;
  }

  /** The derived chain is made of rows, each once. */
  lemma {:induction false} ChainIsRows(c: Config)
    ensures var ch := DeriveChain(c); NoDup(ch) && Scale in ch && forall t :: t in ch ==> Known(t)
  {
    var f := Trim(c.filters);
    if f == "" {
      AutoKnown(c);
    } else {
      var ts := ReadAll(Trimmed(Split(f)));
      KeptNoDup(Distinct(Kept(ts, KnownTokens())), FrcKept(c.FrcOn()));
    }
  }

  /** The enabled rows of the laid order are the chain, whatever the rows were. */
  lemma {:induction false} LayShows(base: seq<Token>, chain: seq<Token>, enabled: set<Token>)
    requires forall t :: t in chain ==> t in enabled
    requires |Kept(base, EnabledIn(enabled))| <= |chain|
    ensures Kept(Lay(base, chain, enabled), EnabledIn(enabled)) == chain
  {
    if base == [] {
      KeptAll(chain, EnabledIn(enabled));
    } else if base[0] in enabled {
      LayShows(base[1..], chain[1..], enabled);
      KeptFirst(chain[0], Lay(base[1..], chain[1..], enabled), EnabledIn(enabled));
    } else {
      LayShows(base[1..], chain, enabled);
      KeptFirst(base[0], Lay(base[1..], chain, enabled), EnabledIn(enabled));
    }
  }

  /** The disabled rows keep their places, and the enabled ones hold the chain. */
  lemma {:induction false} LayKeepsRows(base: seq<Token>, chain: seq<Token>, enabled: set<Token>)
    requires |Kept(base, EnabledIn(enabled))| == |chain|
    ensures |Lay(base, chain, enabled)| == |base|
    ensures forall i :: 0 <= i < |base| ==>
      if base[i] in enabled then Lay(base, chain, enabled)[i] in chain else Lay(base, chain, enabled)[i] == base[i]
  {
    if base != [] {
      LayKeepsRows(base[1..], if base[0] in enabled then chain[1..] else chain, enabled);
    }
  }

  function Elements(s: seq<Token>): set<Token> {
    set t | t in s
  }

  /** A list has as many elements as places exactly when nothing in it repeats. */
  lemma {:induction false} CountElements(s: seq<Token>)
    ensures |Elements(s)| <= |s| && (|Elements(s)| == |s| <==> NoDup(s))
  {
    if s != [] {
      CountElements(s[1..]);
      assert Elements(s) == {s[0]} + Elements(s[1..]);
      if s[0] !in s[1..] && NoDup(s[1..]) {
        NoDupCons(s);
      }
    }
  }

  lemma {:induction false} NoDupCons(s: seq<Token>)
    requires s != [] && s[0] !in s[1..] && NoDup(s[1..])
    ensures NoDup(s)
  {
    forall i, j | 0 <= i < j < |s|
      ensures s[i] != s[j]
    {
      assert s[j] == s[1..][j - 1];
      if i > 0 {
        assert s[i] == s[1..][i - 1];
      }
    }
  }

  /** Lists without repeats that have the same elements are equally long. */
  lemma {:induction false} SameLength(a: seq<Token>, b: seq<Token>)
    requires NoDup(a) && NoDup(b) && forall t :: t in a <==> t in b
    ensures |a| == |b|
  {
    CountElements(a);
    CountElements(b);
    assert Elements(a) == Elements(b);
  }

  lemma {:induction false} LaidRows(base: seq<Token>, chain: seq<Token>)
    requires AllRows(base) && NoDup(chain) && forall t :: t in chain ==> Known(t)
    ensures var rows := Lay(base, chain, Elements(chain));
            AllRows(rows) && Kept(rows, EnabledIn(Elements(chain))) == chain
  {
    var enabled := Elements(chain);
    var rows := Lay(base, chain, enabled);
    KeptNoDup(base, EnabledIn(enabled));
    SameLength(Kept(base, EnabledIn(enabled)), chain);
    LayShows(base, chain, enabled);
    LayKeepsRows(base, chain, enabled);
    forall t
      ensures t in rows <==> Known(t)
    {
      if t in chain {
        assert t in Kept(rows, EnabledIn(enabled));
      } else if t in base {
        var i :| 0 <= i < |base| && base[i] == t;
        assert rows[i] == t;
      }
    }
    assert Elements(rows) == Elements(base);
    CountElements(base);
    CountElements(rows);
  }

  lemma {:induction false} SavedFirst(saved: seq<Token>, chain: seq<Token>)
    requires NoDup(saved) && (forall t :: t in saved ==> Known(t))
    requires Kept(saved, EnabledIn(Elements(chain))) == chain
    ensures var rows := saved + Kept(CATALOG, NotIn(saved));
            AllRows(rows) && Kept(rows, EnabledIn(Elements(chain))) == chain
  {
    var rest := Kept(CATALOG, NotIn(saved));
    CatalogIsAll();
    KeptNoDup(CATALOG, NotIn(saved));
    NoDupAppend(saved, rest);
    KeptAppend(saved, rest, EnabledIn(Elements(chain)));
    KeptNone(rest, EnabledIn(Elements(chain)));
    assert chain + [] == chain;
  }

  lemma {:induction false} NoDupAppend(a: seq<Token>, b: seq<Token>)
    requires NoDup(a) && NoDup(b) && forall t :: t in a ==> t !in b
    ensures NoDup(a + b)
  {
    forall i, j | 0 <= i < j < |a + b|
      ensures (a + b)[i] != (a + b)[j]
    {
      if i < |a| <= j {
        assert a[i] in a && b[j - |a|] in b;
      }
    }
  }

  /**
   Whatever the saved and the displayed order: the rebuilt rows are the catalogue, each filter once, and the
   enabled rows among them, in order, are exactly the chain.
   */
  lemma {:induction false} RebuiltRows(order: seq<Token>, saved: seq<Token>, chain: seq<Token>)
    requires order == [] || AllRows(order)
    requires NoDup(saved) && forall t :: t in saved ==> Known(t)
    requires NoDup(chain) && forall t :: t in chain ==> Known(t)
    ensures AllRows(Rebuilt(order, saved, chain))
    ensures Kept(Rebuilt(order, saved, chain), EnabledIn(Elements(chain))) == chain
  {
    CatalogIsAll();
    if saved != [] && Kept(saved, EnabledIn(Elements(chain))) == chain {
      SavedFirst(saved, chain);
    } else {
      LaidRows(if order != [] then order else CATALOG, chain);
    }
  }

  /**
   Rows move only where they must: a saved order that shows the chain comes back whole, a displayed one that does
   stays, and else every row that is off keeps its place.
   */
  lemma {:induction false} RowsMoveLeast(order: seq<Token>, saved: seq<Token>, chain: seq<Token>)
    requires order == [] || AllRows(order)
    requires NoDup(chain) && forall t :: t in chain ==> Known(t)
    ensures var rows, shows := Rebuilt(order, saved, chain), EnabledIn(Elements(chain));
            var base := if order != [] then order else [Nr, Frc, Scale, Sharpen, ProcAmp, Grain, Delay];
            && (saved != [] && Kept(saved, shows) == chain ==> saved <= rows)
            && (!(saved != [] && Kept(saved, shows) == chain) && order != [] && Kept(order, shows) == chain ==>
                  rows == order)
            && (!(saved != [] && Kept(saved, shows) == chain) ==>
                  |rows| == |base| && forall i :: 0 <= i < |base| && base[i] !in chain ==> rows[i] == base[i])
  {
    var base := if order != [] then order else CATALOG;
    CatalogIsAll();
    KeptNoDup(base, EnabledIn(Elements(chain)));
    SameLength(Kept(base, EnabledIn(Elements(chain))), chain);
    LayKeepsRows(base, chain, Elements(chain));
  }

  // ----- The form read back -----

  function Texts(ts: seq<Token>): (r: seq<string>)
    ensures |r| == |ts| && forall i :: 0 <= i < |r| ==> r[i] == Text(ts[i])
  {
    seq(|ts|, i requires 0 <= i < |ts| => Text(ts[i]))
  }

  /** The chain as the form posts it: the joined names, or a comma for none. */
  function PostedFilters(chain: seq<Token>): string {
    if chain != [] then Join(Texts(chain)) else ","
  }

  lemma {:induction false} JoinClean(ts: seq<string>)
    requires forall i, j :: 0 <= i < |ts| && 0 <= j < |ts[i]| ==> !Space(ts[i][j])
    ensures forall j :: 0 <= j < |Join(ts)| ==> !Space(Join(ts)[j])
  {
    if |ts| > 1 {
      assert forall i, j :: 0 <= i < |ts[1..]| && 0 <= j < |ts[1..][i]| ==> ts[1..][i][j] == ts[i + 1][j];
      JoinClean(ts[1..]);
      assert forall j :: 0 <= j < |ts[0]| ==> !Space(ts[0][j]);
    }
  }

  /** What is posted reads back, in the dashboard and in the engine, as the tokens of the chain. */
  lemma {:induction false} PostedReads(chain: seq<Token>)
    requires chain != [] && forall t :: t in chain ==> Known(t)
    ensures var f := PostedFilters(chain);
            && f != "" && Trim(f) == f && ReadAll(Trimmed(Split(f))) == chain && ReadAll(Lines(f)) == chain
  {
    var texts := Texts(chain);
    forall i | 0 <= i < |texts|
      ensures Read(texts[i]) == chain[i] && texts[i] != "" && ',' !in texts[i]
      ensures forall j :: 0 <= j < |texts[i]| ==> !Space(texts[i][j])
    {
      assert chain[i] in chain;
      ReadText(chain[i]);
    }
    SplitJoin(texts);
    JoinClean(texts);
    TrimSpaceless(Join(texts));
    SplitClean(Join(texts));
  }

  /** A chain with a scale, as the form posts it. */
  ghost predicate Posted(chain: seq<Token>, c: Config) {
    && NoDup(chain) && Scale in chain && (forall t :: t in chain ==> Known(t))
    && c.filters == PostedFilters(chain) && (c.frc <==> Frc in chain)
  }

  /** The round trip of the form: the posted chain derives the same chain again ... */
  lemma {:induction false} PostedChainDerives(chain: seq<Token>, c: Config)
    requires Posted(chain, c)
    ensures DeriveChain(c) == chain
  {
    PostedReads(chain);
    KeepsItself(chain, c.FrcOn());
  }

  /** ... and the engine composes its operators in its order. */
  lemma {:induction false} PostedChainRuns(chain: seq<Token>, c: Config)
    requires Posted(chain, c)
    ensures TokensOf(Chain(EngineTokens(c), FrcMode(c) > 0)) == Kept(chain, NotDelay())
  {
    PostedTokens(chain, c);
    KeepsItself(chain, c.FrcOn());
    OperatorsOf(chain, c.FrcOn());
  }

  lemma {:induction false} PostedTokens(chain: seq<Token>, c: Config)
    requires Posted(chain, c)
    ensures EngineTokens(c) == chain && (FrcMode(c) > 0 <==> c.FrcOn())
  {
    PostedReads(chain);
  }

  lemma {:induction false} OperatorsOf(chain: seq<Token>, frcOn: bool)
    requires NoDup(chain) && ExplicitChain(chain, frcOn) == chain
    ensures TokensOf(Chain(chain, frcOn)) == Kept(chain, NotDelay())
  {
    ExplicitAgrees(chain, frcOn);
    KeptNoDup(chain, ComposedBy(frcOn));
  }

  lemma {:induction false} KeepsItself(chain: seq<Token>, frcOn: bool)
    requires NoDup(chain) && Scale in chain && (Frc in chain ==> frcOn) && forall t :: t in chain ==> Known(t)
    ensures ExplicitChain(chain, frcOn) == chain
  {
    KeptAll(chain, KnownTokens());
    FreshIsAll(chain, {});
    KeptAll(chain, FrcKept(frcOn));
  }
}