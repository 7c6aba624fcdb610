/** The search box component (app/components/search-input.tsx): `handleSearch`
    copies the current search parameters, sets or deletes `query` on the copy
    as `URLSearchParams` does (section 6.2 of the WHATWG URL Standard), and
    navigates to `/?` followed by the serialised copy. */
module SearchInput {
  import opened Web
  import opened Text

  /** One name-value pair of a `URLSearchParams` list. */
  datatype Param = Param(name: string, value: string)

  /** The number of pairs called `name`. */
  function Count(ps: seq<Param>, name: string): (n: nat)
    ensures n <= |ps|
  {
    if ps == [] then 0 else (if ps[0].name == name then 1 else 0) + Count(ps[1..], name)
  }

  /** `get(name)`: the value of the first pair called `name`, if any. */
  function GetParam(ps: seq<Param>, name: string): (r: Option<string>)
    ensures r.None? <==> Count(ps, name) == 0
  {
    if ps == [] then None
    else if ps[0].name == name then Some(ps[0].value)
    else GetParam(ps[1..], name)
  }

  /** `delete(name)`: every pair called `name` is removed; the others stay in order. */
  function DeleteParam(ps: seq<Param>, name: string): (r: seq<Param>)
    ensures Count(r, name) == 0
    ensures |r| == |ps| - Count(ps, name)
  {
    if ps == [] then []
    else
      var rest := DeleteParam(ps[1..], name);
      assert ps == [ps[0]] + ps[1..];
      if ps[0].name == name then rest else [ps[0]] + rest
  }

  /** No pair is called `name` exactly when the count is zero. */
  lemma {:induction false} CountZero(ps: seq<Param>, name: string)
    ensures Count(ps, name) == 0 <==> forall i :: 0 <= i < |ps| ==> ps[i].name != name
  {
    if ps != [] {
      CountZero(ps[1..], name);
      assert forall i :: 1 <= i < |ps| ==> ps[i] == ps[1..][i - 1];
    }
  }

  /** `get` returns the value of the first pair called `name`. */
  lemma {:induction false} GetParamFirst(ps: seq<Param>, name: string)
    ensures GetParam(ps, name).Some? ==>
              exists k :: 0 <= k < |ps| && ps[k] == Param(name, GetParam(ps, name).value) &&
                          forall i :: 0 <= i < k ==> ps[i].name != name
  {
    if ps != [] && ps[0].name != name {
      GetParamFirst(ps[1..], name);
      if GetParam(ps, name).Some? {
        var v := GetParam(ps, name).value;
        var k :| 0 <= k < |ps| - 1 && ps[1..][k] == Param(name, v) &&
                 forall i :: 0 <= i < k ==> ps[1..][i].name != name;
        assert ps[k + 1] == Param(name, v);
        forall i | 0 <= i < k + 1 ensures ps[i].name != name {
          if i > 0 { assert ps[i] == ps[1..][i - 1]; }
        }
      }
    }
  }

  /** `delete` keeps every other pair with its multiplicity. */
  lemma {:induction false} DeleteParamMultiset(ps: seq<Param>, name: string)
    ensures forall p :: multiset(DeleteParam(ps, name))[p] == if p.name != name then multiset(ps)[p] else 0
  {
    if ps != [] {
      DeleteParamMultiset(ps[1..], name);
      assert ps == [ps[0]] + ps[1..];
    }
  }

  /** `delete` works pair by pair: the order of the kept pairs is their order
      in the list. */
  lemma {:induction false} DeleteParamAppend(a: seq<Param>, b: seq<Param>, name: string)
    ensures DeleteParam(a + b, name) == DeleteParam(a, name) + DeleteParam(b, name)
  {
    if a == [] {
      assert a + b == b;
    } else {
      DeleteParamAppend(a[1..], b, name);
      DeleteAppendStep(a[0], a[1..], b, name);
      assert a == [a[0]] + a[1..];
    }
  }

  /** The step of `DeleteParamAppend`, for a list with first pair `p`. */
  lemma DeleteAppendStep(p: Param, rest: seq<Param>, b: seq<Param>, name: string)
    requires DeleteParam(rest + b, name) == DeleteParam(rest, name) + DeleteParam(b, name)
    ensures DeleteParam([p] + rest + b, name) == DeleteParam([p] + rest, name) + DeleteParam(b, name)
  {
    ConsAssoc([p], rest, b);
    DeleteParamCons(p, rest + b, name);
    DeleteParamCons(p, rest, name);
    if p.name != name {
      ConsAssoc([p], DeleteParam(rest, name), DeleteParam(b, name));
    }
  }

  /** Concatenation of pair lists is associative. */
  lemma ConsAssoc(x: seq<Param>, y: seq<Param>, z: seq<Param>)
    ensures x + y + z == x + (y + z)
  {
  }

  /** `delete` removes exactly the pairs called `name`. */
  lemma {:induction false} DeleteParamMembers(ps: seq<Param>, name: string, p: Param)
    ensures p in DeleteParam(ps, name) <==> p in ps && p.name != name
  {
    if ps != [] {
      DeleteParamMembers(ps[1..], name, p);
      assert ps == [ps[0]] + ps[1..];
    }
  }

  /** `set(name, value)`: if a pair called `name` exists, the first such pair
      takes the value and later ones are removed; otherwise the pair is appended. */
  function SetParam(ps: seq<Param>, name: string, value: string): (r: seq<Param>)
    ensures |r| == |ps| - Count(ps, name) + 1
  {
    if ps == [] then [Param(name, value)]
    else if ps[0].name == name then [Param(name, value)] + DeleteParam(ps[1..], name)
    else [ps[0]] + SetParam(ps[1..], name, value)
  }

  /** One step of `DeleteParam` on a list with a known first pair. */
  lemma DeleteParamCons(p: Param, ps: seq<Param>, name: string)
    ensures DeleteParam([p] + ps, name) ==
            (if p.name == name then DeleteParam(ps, name) else [p] + DeleteParam(ps, name))
  {
    assert ([p] + ps)[0] == p && ([p] + ps)[1..] == ps;
  }

  /** One step of `SetParam` and `DeleteParam` on a list with a known first pair. */
  lemma ParamsCons(p: Param, ps: seq<Param>, name: string, value: string)
    ensures SetParam([p] + ps, name, value) ==
            (if p.name == name then [Param(name, value)] + DeleteParam(ps, name)
             else [p] + SetParam(ps, name, value))
    ensures DeleteParam([p] + ps, name) ==
            (if p.name == name then DeleteParam(ps, name) else [p] + DeleteParam(ps, name))
  {
    assert ([p] + ps)[0] == p && ([p] + ps)[1..] == ps;
  }

  /** What `set` still has to produce from the unvisited pairs `rest`: the
      whole `set` if no pair called `name` was met yet, otherwise only the
      removal of later ones. */
  function SetRemainder(rest: seq<Param>, name: string, value: string, found: bool): seq<Param> {
    if found then DeleteParam(rest, name) else SetParam(rest, name, value)
  }

  /** One pair of the walk performed by `SearchParams.Set`. */
  lemma SetRemainderCons(p: Param, rest: seq<Param>, name: string, value: string, found: bool)
    ensures SetRemainder([p] + rest, name, value, found) ==
            Emitted(p, name, value, found) + SetRemainder(rest, name, value, found || p.name == name)
  {
    ParamsCons(p, rest, name, value);
  }

  /** What `set` emits for the visited pair `p`: another name is kept, the
      first pair called `name` becomes the new pair, later ones are dropped. */
  function Emitted(p: Param, name: string, value: string, found: bool): seq<Param> {
    if p.name != name then [p] else if found then [] else [Param(name, value)]
  }

  /** The loop step of `SearchParams.Set`: visiting pair `i` moves what it
      emits from the remainder to the output. */
  lemma SetStep(goal: seq<Param>, out: seq<Param>, ps: seq<Param>, i: nat,
                name: string, value: string, found: bool)
    requires i < |ps|
    requires goal == out + SetRemainder(ps[i..], name, value, found)
    ensures goal == (out + Emitted(ps[i], name, value, found)) +
                    SetRemainder(ps[i + 1..], name, value, found || ps[i].name == name)
  {
    var p, rest := ps[i], ps[i + 1..];
    SuffixCons(ps, i);
    SetRemainderCons(p, rest, name, value, found);
    ConsAssoc(out, Emitted(p, name, value, found), SetRemainder(rest, name, value, found || p.name == name));
  }

  /** The suffix from `i` is its first element followed by the suffix from `i + 1`. */
  lemma SuffixCons(ps: seq<Param>, i: nat)
    requires i < |ps|
    ensures ps[i..] == [ps[i]] + ps[i + 1..]
  {
  }

  /** The loop step of `SearchParams.Delete`: visiting pair `i` keeps it in the
      output unless it is called `name`. */
  lemma DeleteStep(goal: seq<Param>, out: seq<Param>, ps: seq<Param>, i: nat, name: string)
    requires i < |ps|
    requires goal == out + DeleteParam(ps[i..], name)
    ensures goal == (if ps[i].name != name then out + [ps[i]] else out) + DeleteParam(ps[i + 1..], name)
  {
    var p, rest := ps[i], ps[i + 1..];
    SuffixCons(ps, i);
    DeleteParamCons(p, rest, name);
    if p.name != name {
      ConsAssoc(out, [p], DeleteParam(rest, name));
    }
  }

  /** After `set`, there is exactly one pair called `name`, and `get` reads the new value. */
  lemma {:induction false} SetParamSingle(ps: seq<Param>, name: string, value: string)
    ensures Count(SetParam(ps, name, value), name) == 1
    ensures GetParam(SetParam(ps, name, value), name) == Some(value)
  {
    var r := SetParam(ps, name, value);
    if ps == [] {
    } else if ps[0].name == name {
      assert r[1..] == DeleteParam(ps[1..], name);
    } else {
      SetParamSingle(ps[1..], name, value);
      assert r[1..] == SetParam(ps[1..], name, value);
    }
  }

  /** `set` leaves the pairs with other names as they were, in their order. */
  lemma {:induction false} SetParamKeepsOthers(ps: seq<Param>, name: string, value: string)
    ensures DeleteParam(SetParam(ps, name, value), name) == DeleteParam(ps, name)
  {
    var r := SetParam(ps, name, value);
    if ps == [] {
    } else if ps[0].name == name {
      assert r[1..] == DeleteParam(ps[1..], name);
      DeleteParamIdempotent(ps[1..], name);
    } else {
      SetParamKeepsOthers(ps[1..], name, value);
      assert r[1..] == SetParam(ps[1..], name, value);
    }
  }

  /** Without a pair called `name`, `set` appends the new pair. */
  lemma {:induction false} SetParamAppends(ps: seq<Param>, name: string, value: string)
    requires forall i :: 0 <= i < |ps| ==> ps[i].name != name
    ensures SetParam(ps, name, value) == ps + [Param(name, value)]
  {
    if ps != [] {
      var tail := ps[1..];
      forall i | 0 <= i < |tail| ensures tail[i].name != name {
        assert tail[i] == ps[i + 1];
      }
      SetParamAppends(tail, name, value);
      ParamsCons(ps[0], tail, name, value);
      assert ps == [ps[0]] + tail;
    }
  }

  /** `set` replaces in place: when `k` is the first pair called `name`, the
      pairs before it are kept, the new pair takes its position, and later
      pairs called `name` are removed. */
  lemma {:induction false} SetParamReplacesFirst(ps: seq<Param>, name: string, value: string, k: nat)
    requires k < |ps| && ps[k].name == name
    requires forall i :: 0 <= i < k ==> ps[i].name != name
    ensures SetParam(ps, name, value) == ps[..k] + [Param(name, value)] + DeleteParam(ps[k + 1..], name)
  {
    var tail := ps[1..];
    assert ps == [ps[0]] + tail;
    ParamsCons(ps[0], tail, name, value);
    if k == 0 {
      assert ps[..0] == [];
    } else {
      forall i | 0 <= i < k - 1 ensures tail[i].name != name {
        assert tail[i] == ps[i + 1];
      }
      SetParamReplacesFirst(tail, name, value, k - 1);
      ReplacesFirstStep(ps, tail, k, [Param(name, value)], DeleteParam(ps[k + 1..], name));
    }
  }

  /** The list algebra behind the step of `SetParamReplacesFirst`. */
  lemma ReplacesFirstStep(ps: seq<Param>, tail: seq<Param>, k: nat, mid: seq<Param>, d: seq<Param>)
    requires 0 < k < |ps| && tail == ps[1..]
    ensures [ps[0]] + (tail[..k - 1] + mid + d) == ps[..k] + mid + d
    ensures tail[k..] == ps[k + 1..]
  {
    assert ps[..k] == [ps[0]] + tail[..k - 1];
  }

  /** Deleting twice is deleting once. */
  lemma {:induction false} DeleteParamIdempotent(ps: seq<Param>, name: string)
    ensures DeleteParam(DeleteParam(ps, name), name) == DeleteParam(ps, name)
  {
    if ps != [] {
      DeleteParamIdempotent(ps[1..], name);
      var rest := DeleteParam(ps[1..], name);
      if ps[0].name != name {
        assert ([ps[0]] + rest)[1..] == rest;
      }
    }
  }

  /** Setting the same pair twice is setting it once. */
  lemma {:induction false} SetParamIdempotent(ps: seq<Param>, name: string, value: string)
    ensures SetParam(SetParam(ps, name, value), name, value) == SetParam(ps, name, value)
  {
    var r := SetParam(ps, name, value);
    if ps == [] {
      assert r[1..] == [];
    } else if ps[0].name == name {
      assert r[1..] == DeleteParam(ps[1..], name);
      DeleteParamIdempotent(ps[1..], name);
    } else {
      SetParamIdempotent(ps[1..], name, value);
      assert r[1..] == SetParam(ps[1..], name, value);
    }
  }

  /** The parameter list after the `if (term)` of lines 12-16: `set` for a
      non-empty term, `delete` for the empty one. */
  function UpdatedParams(ps: seq<Param>, term: string): (r: seq<Param>)
    ensures term == "" ==> Count(r, "query") == 0
  {
    if term != "" then SetParam(ps, "query", term) else DeleteParam(ps, "query")
  }

  /** After the update, `query` holds exactly the term when it is non-empty and
      is absent otherwise; the other pairs keep their order. */
  lemma UpdatedParamsQuery(ps: seq<Param>, term: string)
    ensures Count(UpdatedParams(ps, term), "query") == if term == "" then 0 else 1
    ensures GetParam(UpdatedParams(ps, term), "query") == if term == "" then None else Some(term)
    ensures DeleteParam(UpdatedParams(ps, term), "query") == DeleteParam(ps, "query")
  {
    if term != "" {
      SetParamSingle(ps, "query", term);
      SetParamKeepsOthers(ps, "query", term);
    } else {
      DeleteParamIdempotent(ps, "query");
    }
  }

  /** Searching twice for the same term gives the parameters of searching once. */
  lemma UpdatedParamsIdempotent(ps: seq<Param>, term: string)
    ensures UpdatedParams(UpdatedParams(ps, term), term) == UpdatedParams(ps, term)
  {
    if term != "" {
      SetParamIdempotent(ps, "query", term);
    } else {
      DeleteParamIdempotent(ps, "query");
    }
  }

  function PairText(p: Param): string {
    p.name + "=" + p.value
  }

  function PairTexts(ps: seq<Param>): (r: seq<string>)
    ensures |r| == |ps|
    ensures forall i :: 0 <= i < |ps| ==> r[i] == PairText(ps[i])
  {
    if ps == [] then [] else [PairText(ps[0])] + PairTexts(ps[1..])
  }

  /** `toString()`: the pairs as `name=value`, joined by `&` (percent-encoding
      is not modelled). */
  function Serialize(ps: seq<Param>): (s: string)
    ensures ps == [] ==> s == ""
    ensures |ps| == 1 ==> s == PairText(ps[0])
  {
    Join(PairTexts(ps), "&")
  }

  /** Splitting the serialised text at `&` gives back one `name=value` text per
      pair, in order, when no name or value holds an `&` itself. */
  lemma SerializeSplit(ps: seq<Param>)
    requires ps != []
    requires forall i :: 0 <= i < |ps| ==> '&' !in ps[i].name && '&' !in ps[i].value
    ensures Split(Serialize(ps), '&') == PairTexts(ps)
  {
    var texts := PairTexts(ps);
    forall i | 0 <= i < |texts| ensures '&' !in texts[i] {
      PairTextNoAmp(ps[i]);
    }
    SplitJoin(texts, '&');
  }

  /** A `name=value` text has an `&` only if its name or its value has one. */
  lemma PairTextNoAmp(p: Param)
    requires '&' !in p.name && '&' !in p.value
    ensures '&' !in PairText(p)
  {
  }

  /** A mutable `URLSearchParams` object. */
  class SearchParams {
    var pairs: seq<Param>

    /** `new URLSearchParams(init)`: a copy of the given list. */
    constructor (init: seq<Param>)
      ensures pairs == init
    {
      pairs := init;
    }

    /** `set(name, value)`, walking the list once. */
    method Set(name: string, value: string)
      modifies this
      ensures pairs == SetParam(old(pairs), name, value)
    {
      var ps := pairs;
      ghost var goal := SetParam(ps, name, value);
      var out: seq<Param> := [];
      var found := false;
      var i := 0;
      assert ps[0..] == ps;
      while i < |ps|
        invariant 0 <= i <= |ps|
        invariant goal == out + SetRemainder(ps[i..], name, value, found)
      {
        SetStep(goal, out, ps, i, name, value, found);
        out := out + Emitted(ps[i], name, value, found);
        found := found || ps[i].name == name;
        i := i + 1;
      }
      assert ps[i..] == [];
      if !found {
        out := out + [Param(name, value)];
      }
      pairs := out;
    }

    /** `delete(name)`, walking the list once. */
    method Delete(name: string)
      modifies this
      ensures pairs == DeleteParam(old(pairs), name)
    {
      var ps := pairs;
      ghost var goal := DeleteParam(ps, name);
      var out: seq<Param> := [];
      var i := 0;
      assert ps[0..] == ps;
      while i < |ps|
        invariant 0 <= i <= |ps|
        invariant goal == out + DeleteParam(ps[i..], name)
      {
        DeleteStep(goal, out, ps, i, name);
        if ps[i].name != name {
          out := out + [ps[i]];
        }
        i := i + 1;
      }
      assert ps[i..] == [];
      pairs := out;
    }

    function ToString(): (s: string)
      reads this
      ensures s == Serialize(pairs)
    {
      Serialize(pairs)
    }
  }

  /** `handleSearch(term)`: the URL passed to `replace`. The current parameters
      are copied, so `current` is not changed. */
  method HandleSearch(current: SearchParams, term: string) returns (url: string)
    ensures url == "/?" + Serialize(UpdatedParams(current.pairs, term))
  {
    var params := new SearchParams(current.pairs);
    if term != "" {
      params.Set("query", term);
    } else {
      params.Delete("query");
    }
    url := "/?" + params.ToString();
  }
}
