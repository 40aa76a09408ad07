/**
 * `readVariable` (urm.cpp:133-159): checks a variable token against the
 * strict grammar and gives every distinct token a dense id, in the order
 * the tokens are first seen.
 */
module Naturaliser {

  /** The strict variable grammar: `X` followed by one or more `1`s. */
  predicate StrictVariable(t: string) {
    |t| >= 2 && t[0] == 'X' && forall k | 1 <= k < |t| :: t[k] == '1'
  }

  /**
   * The table invariant: ids are exactly `0 .. |m| - 1`, one per name.
   */
  ghost predicate Dense(m: map<string, nat>) {
    (forall t | t in m :: m[t] < |m|) &&
    (forall id | 0 <= id < |m| :: id in m.Values) &&
    (forall t, u | t in m && u in m && m[t] == m[u] :: t == u)
  }

  /** The id `readVariable` returns (-1: rejected) and the table afterwards. */
  datatype Naturalised = Naturalised(id: int, table: map<string, nat>)

  /** What `readVariable` computes, with the token check stated as a grammar. */
  function Naturalise(token: string, m: map<string, nat>, meta: bool): (r: Naturalised)
    ensures r.id == -1 <==> !meta && !StrictVariable(token)
    ensures r.id == -1 ==> r.table == m
    ensures r.id != -1 ==> token in r.table && r.table[token] == r.id
    ensures token in m && r.id != -1 ==> r.id == m[token] && r.table == m
    ensures token !in m && r.id != -1 ==> r.id == |m| && |r.table| == |m| + 1
    ensures forall t | t in m :: t in r.table && r.table[t] == m[t]
    ensures forall t | t in r.table :: t in m || t == token
    ensures Dense(m) ==> Dense(r.table)
  {
    if !meta && !StrictVariable(token) then Naturalised(-1, m)
    else if token in m then Naturalised(m[token], m)
    else
      DenseGrows(m, token);
      Naturalised(|m|, m[token := |m|])
  }

  /** Giving an unseen name the next id keeps the ids exactly `0 .. |m|`. */
  lemma DenseGrows(m: map<string, nat>, t: string)
    requires t !in m
    ensures Dense(m) ==> Dense(m[t := |m|])
  {
    if Dense(m) {
      var m' := m[t := |m|];
      forall id | 0 <= id < |m'| ensures id in m'.Values {
        if id < |m| {
          assert id in m.Values;
          var u :| u in m && m[u] == id;
          assert m'[u] == id;
        } else {
          assert m'[t] == id;
        }
      }
    }
  }

  /**
   * `readVariable`: in strict mode the token is checked with the source's
   * scanning loop; then the token is looked up and, if unseen, inserted with
   * the next free id.
   */
  method ReadVariable(token: string, m: map<string, nat>, meta: bool) returns (id: int, m': map<string, nat>)
    ensures Naturalised(id, m') == Naturalise(token, m, meta)
  {
    if !meta {
      if |token| < 1 || token[0] != 'X' {
        return -1, m;
      }
      var tIndex := 1;
      while tIndex < |token| && token[tIndex] == '1'
        invariant 1 <= tIndex <= |token|
        invariant forall k | 1 <= k < tIndex :: token[k] == '1'
      {
        tIndex := tIndex + 1;
      }
      if tIndex < |token| || tIndex <= 1 {
        return -1, m;
      }
    }
    if token !in m {
      m' := m[token := |m|];
      id := |m'| - 1;
    } else {
      id, m' := m[token], m;
    }
  }

  /** Looking the same token up twice gives the same id and leaves the table alone. */
  lemma NaturaliseTwice(token: string, m: map<string, nat>, meta: bool)
    ensures var r := Naturalise(token, m, meta);
      Naturalise(token, r.table, meta) == r
  {
  }

  /**
   * Ids are injective: a token has the id of a known name exactly when it is
   * that name. This is why the increment/decrement test by id is a test of
   * textual equality.
   */
  lemma SameIdSameName(m: map<string, nat>, name: string, t: string)
    requires Dense(m) && name in m
    ensures (t in m && m[t] == m[name]) <==> t == name
  {
  }

  /** The strict grammar on a few tokens. */
  lemma StrictExamples()
    ensures StrictVariable("X1") && StrictVariable("X111")
    ensures !StrictVariable("") && !StrictVariable("X") && !StrictVariable("X12")
    ensures !StrictVariable("x1") && !StrictVariable("Y1")
  {
    assert "X12"[2] != '1';
  }

  /** The distinct tokens of `ts` in first-seen order. */
  function FirstSeen(ts: seq<string>): (names: seq<string>)
  {
    if ts == [] then []
    else
      var names := FirstSeen(ts[..|ts| - 1]);
      if ts[|ts| - 1] in names then names else names + [ts[|ts| - 1]]
  }

  /** The table after naturalising every token of `ts`, from an empty one. */
  function NaturaliseAll(ts: seq<string>, meta: bool): map<string, nat>
  {
    if ts == [] then map[] else Naturalise(ts[|ts| - 1], NaturaliseAll(ts[..|ts| - 1], meta), meta).table
  }

  /**
   * Order stability: when every token is accepted, the k-th distinct token
   * gets id k, and the table holds exactly the tokens seen.
   */
  lemma {:induction false} NaturaliseAllFollowsFirstSeen(ts: seq<string>, meta: bool)
    requires meta || forall k | 0 <= k < |ts| :: StrictVariable(ts[k])
    ensures var m, names := NaturaliseAll(ts, meta), FirstSeen(ts);
      |m| == |names| &&
      (forall k | 0 <= k < |names| :: names[k] in m && m[names[k]] == k) &&
      (forall t | t in m :: t in names)
  {
    if ts != [] {
      var init, last := ts[..|ts| - 1], ts[|ts| - 1];
      assert meta || forall k | 0 <= k < |init| :: StrictVariable(init[k]) by {
        if !meta {
          forall k | 0 <= k < |init| ensures StrictVariable(init[k]) {
            assert init[k] == ts[k];
          }
        }
      }
      NaturaliseAllFollowsFirstSeen(init, meta);
      assert !meta ==> StrictVariable(ts[|ts| - 1]);
    }
  }
}
