/** Lists of filter names: kept elements, first occurrences, and the comma-separated form. */
module TokenLists {

  function Kept<T(==,!new)>(s: seq<T>, keep: T -> bool): (r: seq<T>)
    ensures |r| <= |s|
    ensures forall t :: t in r <==> t in s && keep(t)
  {
    if s == [] then []
    else
      var rest := Kept(s[1..], keep);
      if keep(s[0]) then [s[0]] + rest else rest
  }

  predicate NoDup<T(==,!new)>(s: seq<T>) {
    forall i, j :: 0 <= i < j < |s| ==> s[i] != s[j]
  }

  /** The first occurrence of every token that is not in `seen`. */
  function Fresh<T(==,!new)>(s: seq<T>, seen: set<T>): (r: seq<T>)
    ensures |r| <= |s|
    ensures forall t :: t in r <==> t in s && t !in seen
    ensures NoDup(r)
  {
    if s == [] then []
    else if s[0] in seen then Fresh(s[1..], seen)
    else [s[0]] + Fresh(s[1..], seen + {s[0]})
  }

  function Distinct<T(==,!new)>(s: seq<T>): (r: seq<T>)
    ensures NoDup(r) && forall t :: t in r <==> t in s
  {
    Fresh(s, {})
  }

  lemma {:induction false} KeptAppend<T(!new)>(a: seq<T>, b: seq<T>, keep: T -> bool)
    ensures Kept(a + b, keep) == Kept(a, keep) + Kept(b, keep)
  {
    if a == [] {
      assert a + b == b;
    } else {
      KeptAppend(a[1..], b, keep);
      KeptFirst(a[0], a[1..], keep);
      KeptFirst(a[0], a[1..] + b, keep);
      Assoc([a[0]], a[1..], b);
      Assoc(KeptOne(a[0], keep), Kept(a[1..], keep), Kept(b, keep));
      assert a == [a[0]] + a[1..];
    }
  }

  lemma {:induction false} Assoc<T(!new)>(x: seq<T>, y: seq<T>, z: seq<T>)
    ensures x + (y + z) == x + y + z
  {
  }

  function KeptOne<T(==,!new)>(t: T, keep: T -> bool): seq<T> {
    if keep(t) then [t] else []
  }

  lemma {:induction false} KeptFirst<T(!new)>(t: T, s: seq<T>, keep: T -> bool)
    ensures Kept([t] + s, keep) == KeptOne(t, keep) + Kept(s, keep)
  {
    assert ([t] + s)[1..] == s;
  }

  lemma {:induction false} KeptAround<T(!new)>(s: seq<T>, i: nat, keep: T -> bool)
    requires i < |s|
    ensures Kept(s, keep) == Kept(s[..i], keep) + KeptOne(s[i], keep) + Kept(s[i + 1..], keep)
  {
    assert s[i..] == [s[i]] + s[i + 1..];
    assert s == s[..i] + s[i..];
    KeptAppend(s[..i], s[i..], keep);
    KeptFirst(s[i], s[i + 1..], keep);
    Assoc(Kept(s[..i], keep), KeptOne(s[i], keep), Kept(s[i + 1..], keep));
  }

  lemma {:induction false} KeptTwice<T(!new)>(s: seq<T>, p: T -> bool, q: T -> bool, both: T -> bool)
    requires forall t :: both(t) <==> p(t) && q(t)
    ensures Kept(Kept(s, p), q) == Kept(s, both)
  {
    if s != [] {
      KeptTwice(s[1..], p, q, both);
      KeptAppend([s[0]], Kept(s[1..], p), q);
      assert Kept([s[0]], q) == if q(s[0]) then [s[0]] else [] by {
        assert [s[0]][1..] == [];
      }
    }
  }

  lemma {:induction false} KeptAll<T(!new)>(s: seq<T>, keep: T -> bool)
    requires forall t :: t in s ==> keep(t)
    ensures Kept(s, keep) == s
  {
    if s != [] {
      KeptAll(s[1..], keep);
    }
  }

  lemma {:induction false} KeptNone<T(!new)>(s: seq<T>, keep: T -> bool)
    requires forall t :: t in s ==> !keep(t)
    ensures Kept(s, keep) == []
  {
    if s != [] {
      KeptNone(s[1..], keep);
    }
  }

  lemma {:induction false} KeptNoDup<T(!new)>(s: seq<T>, keep: T -> bool)
    requires NoDup(s)
    ensures NoDup(Kept(s, keep))
  {
    if s != [] {
      assert NoDup(s[1..]) by {
        forall i, j | 0 <= i < j < |s[1..]|
          ensures s[1..][i] != s[1..][j]
        {
          assert s[i + 1] != s[j + 1];
        }
      }
      KeptNoDup(s[1..], keep);
      assert s[0] !in s[1..];
    }
  }

  /** Dropping repeats and dropping unwanted tokens can be done in either order. */
  lemma {:induction false} KeptFresh<T(!new)>(s: seq<T>, seen: set<T>, keep: T -> bool)
    ensures Kept(Fresh(s, seen), keep) == Fresh(Kept(s, keep), seen)
  {
    if s != [] {
      if s[0] in seen {
        KeptFresh(s[1..], seen, keep);
      } else {
        KeptFresh(s[1..], seen + {s[0]}, keep);
        if !keep(s[0]) {
          FreshIgnores(Kept(s[1..], keep), seen, s[0]);
        }
      }
    }
  }

  lemma {:induction false} FreshIgnores<T(!new)>(s: seq<T>, seen: set<T>, t: T)
    requires t !in s
    ensures Fresh(s, seen + {t}) == Fresh(s, seen)
  {
    if s != [] {
      if s[0] in seen {
        FreshIgnores(s[1..], seen, t);
      } else {
        FreshIgnores(s[1..], seen + {s[0]}, t);
        assert seen + {t} + {s[0]} == seen + {s[0]} + {t};
      }
    }
  }

  /** A list is its own first occurrences exactly when nothing in it repeats. */
  lemma {:induction false} FreshIsAll<T(!new)>(s: seq<T>, seen: set<T>)
    ensures Fresh(s, seen) == s <==> NoDup(s) && forall t :: t in s ==> t !in seen
  {
    if s != [] && s[0] !in seen {
      FreshIsAll(s[1..], seen + {s[0]});
      if Fresh(s, seen) == s {
        assert Fresh(s, seen)[1..] == Fresh(s[1..], seen + {s[0]});
        assert s[0] !in s[1..];
      } else if NoDup(s) {
        assert forall i :: 0 <= i < |s[1..]| ==> s[1..][i] == s[i + 1];
        assert s[0] !in s[1..];
      }
    }
  }

  // ----- Comma-separated text -----

  function Join(ts: seq<string>): string {
    if ts == [] then "" else if |ts| == 1 then ts[0] else ts[0] + "," + Join(ts[1..])
  }

  /** The pieces between commas; text without a comma is one piece. */
  function Split(s: string): (ts: seq<string>)
    ensures |ts| > 0
  {
    if s == "" then [""]
    else
      var rest := Split(s[1..]);
      if s[0] == ',' then [""] + rest else [[s[0]] + rest[0]] + rest[1..]
  }

  /** The pieces as a line reader delivers them: no empty piece after the last comma. */
  function Lines(s: string): seq<string> {
    var ts := Split(s);
    if ts[|ts| - 1] == "" then ts[..|ts| - 1] else ts
  }

  lemma {:induction false} SplitPiece(a: string, s: string)
    requires ',' !in a
    ensures Split(a + "," + s) == [a] + Split(s)
    ensures Split(a) == [a]
  {
    if a == "" {
      assert a + "," + s == "," + s && ("," + s)[1..] == s;
    } else {
      SplitPiece(a[1..], s);
      assert (a + "," + s)[1..] == a[1..] + "," + s;
      assert [a[0]] + a[1..] == a;
    }
  }

  /** A list of names without commas is what its joined form splits into. */
  lemma {:induction false} SplitJoin(ts: seq<string>)
    requires ts != [] && forall i :: 0 <= i < |ts| ==> ',' !in ts[i]
    ensures Split(Join(ts)) == ts
  {
    if |ts| == 1 {
      SplitPiece(ts[0], "");
    } else {
      SplitJoin(ts[1..]);
      SplitPiece(ts[0], Join(ts[1..]));
    }
  }
}
