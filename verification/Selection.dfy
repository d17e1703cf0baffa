/** Choosing items of a sequence: which ones, and in which order. */
module Selection {

  /** `at` lists, in increasing order, exactly the positions of the items that satisfy `p`. */
  ghost predicate Selects<A>(at: seq<nat>, s: seq<A>, p: A -> bool) {
    && (forall i, j :: 0 <= i < j < |at| ==> at[i] < at[j])
    && (forall i :: 0 <= i < |at| ==> at[i] < |s| && p(s[at[i]]))
    && (forall k: nat {:trigger k in at} :: k < |s| && p(s[k]) ==> k in at)
  }

  /** One more item is chosen or not. */
  lemma SelectsOneMore<A>(at: seq<nat>, s: seq<A>, x: A, p: A -> bool)
    requires Selects(at, s, p)
    ensures Selects(if p(x) then at + [|s|] else at, s + [x], p)
  {
    var more, t := if p(x) then at + [|s|] else at, s + [x];
    forall k: nat | k < |t| && p(t[k]) ensures k in more {
      if k < |s| {
        assert t[k] == s[k] && k in at;
      } else {
        assert more[|at|] == k;
      }
    }
  }

  /** `t` lists the images of the selected items. */
  ghost predicate Picks<A, B>(at: seq<nat>, s: seq<A>, t: seq<B>, p: A -> bool, f: A -> B) {
    Selects(at, s, p) && |at| == |t| && forall i :: 0 <= i < |at| ==> t[i] == f(s[at[i]])
  }

  lemma PicksOneMore<A, B>(at: seq<nat>, s: seq<A>, t: seq<B>, x: A, p: A -> bool, f: A -> B)
    requires Picks(at, s, t, p, f)
    ensures Picks(if p(x) then at + [|s|] else at, s + [x], if p(x) then t + [f(x)] else t, p, f)
  {
    SelectsOneMore(at, s, x, p);
  }
}
