/** A store of errors with a tree of sinks, each of which knows whether an error came in at it or below it. */
module ErrorStore {
  import opened Wrappers

  datatype ErrorSinkData = ErrorSinkData(parent: Option<nat>, hasErrors: bool)

  type Sinks = seq<ErrorSinkData>

  /** A parent has a smaller number than its children. */
  ghost predicate Tree(sinks: Sinks) {
    forall i :: 0 <= i < |sinks| && sinks[i].parent.Some? ==> sinks[i].parent.value < i
  }

  /** Whether `d` is `a` or below it. */
  predicate Descends(sinks: Sinks, d: nat, a: nat)
    requires Tree(sinks) && d < |sinks|
  {
    d == a || (sinks[d].parent.Some? && Descends(sinks, sinks[d].parent.value, a))
  }

  lemma {:induction false} DescendsDown(sinks: Sinks, d: nat, a: nat)
    requires Tree(sinks) && d < |sinks| && Descends(sinks, d, a)
    ensures a <= d
  {
    if d != a { DescendsDown(sinks, sinks[d].parent.value, a); }
  }

  lemma {:induction false} DescendsToParent(sinks: Sinks, d: nat, a: nat)
    requires Tree(sinks) && d < |sinks| && a < |sinks| && Descends(sinks, d, a) && sinks[a].parent.Some?
    ensures Descends(sinks, d, sinks[a].parent.value)
  {
    if d != a { DescendsToParent(sinks, sinks[d].parent.value, a); }
  }

  /** Of two sinks above the same one, one is above the other. */
  lemma {:induction false} AncestorsAreNested(sinks: Sinks, d: nat, a: nat, b: nat)
    requires Tree(sinks) && d < |sinks| && Descends(sinks, d, a) && Descends(sinks, d, b) && a <= b
    ensures b < |sinks| && Descends(sinks, b, a)
  {
    DescendsDown(sinks, d, b);
    if d != b {
      DescendsDown(sinks, d, a);
      AncestorsAreNested(sinks, sinks[d].parent.value, a, b);
    }
  }

  /** Sinks with the same parents, whatever their marks. */
  ghost predicate SameTree(sinks: Sinks, others: Sinks) {
    |sinks| == |others| && forall i :: 0 <= i < |sinks| ==> sinks[i].parent == others[i].parent
  }

  lemma {:induction false} SameDescends(sinks: Sinks, others: Sinks, d: nat, a: nat)
    requires Tree(sinks) && Tree(others) && d < |sinks| <= |others|
    requires forall i :: 0 <= i < |sinks| ==> sinks[i].parent == others[i].parent
    ensures Descends(sinks, d, a) == Descends(others, d, a)
  {
    if d != a && sinks[d].parent.Some? { SameDescends(sinks, others, sinks[d].parent.value, a); }
  }

  /** The marks tell, of every sink, whether an error was pushed to it or below it. */
  ghost predicate Tells(sinks: Sinks, pushed: seq<nat>) {
    && Tree(sinks)
    && (forall k :: 0 <= k < |pushed| ==> pushed[k] < |sinks|)
    && (forall s :: 0 <= s < |sinks| ==>
         (sinks[s].hasErrors <==> exists k :: 0 <= k < |pushed| && Descends(sinks, pushed[k], s)))
  }

  /** The sinks after an error has come in at `id`. */
  function Marked(sinks: Sinks, id: nat): (r: Sinks)
    requires Tree(sinks) && id < |sinks|
  {
    seq(|sinks|, i requires 0 <= i < |sinks| => sinks[i].(hasErrors := sinks[i].hasErrors || Descends(sinks, id, i)))
  }

  lemma MarkedTells(sinks: Sinks, pushed: seq<nat>, id: nat)
    requires Tells(sinks, pushed) && id < |sinks|
    ensures Tells(Marked(sinks, id), pushed + [id])
  {
    var marked, longer := Marked(sinks, id), pushed + [id];
    forall s | 0 <= s < |marked|
      ensures marked[s].hasErrors <==> exists k :: 0 <= k < |longer| && Descends(marked, longer[k], s)
    {
      forall k | 0 <= k < |longer| ensures Descends(marked, longer[k], s) == Descends(sinks, longer[k], s) {
        SameDescends(sinks, marked, longer[k], s);
      }
      assert longer[|pushed|] == id;
      if sinks[s].hasErrors {
        var k :| 0 <= k < |pushed| && Descends(sinks, pushed[k], s);
        assert longer[k] == pushed[k];
      }
    }
  }

  /** A new sink is clean, and changes nothing for the others. */
  lemma RegisteredTells(sinks: Sinks, pushed: seq<nat>, parent: Option<nat>)
    requires Tells(sinks, pushed) && (parent.Some? ==> parent.value < |sinks|)
    ensures Tells(sinks + [ErrorSinkData(parent, false)], pushed)
  {
    var longer := sinks + [ErrorSinkData(parent, false)];
    forall k, s | 0 <= k < |pushed| && 0 <= s < |longer|
      ensures Descends(longer, pushed[k], s) == Descends(sinks, pushed[k], s)
    {
      SameDescends(sinks, longer, pushed[k], s);
    }
    forall s | 0 <= s < |longer|
      ensures longer[s].hasErrors <==> exists k :: 0 <= k < |pushed| && Descends(longer, pushed[k], s)
    {
      if s == |sinks| {
        forall k | 0 <= k < |pushed| ensures !Descends(longer, pushed[k], s) {
          if Descends(longer, pushed[k], s) { DescendsDown(longer, pushed[k], s); }
        }
      }
    }
  }

  class ErrorStoreData<T> {
    var errors: seq<T>
    var sinks: Sinks
    /** The sinks that the errors came in at, in order. */
    ghost var pushed: seq<nat>

    ghost predicate Valid()
      reads this
    {
      |pushed| == |errors| && Tells(sinks, pushed)
    }

    constructor ()
      ensures Valid() && errors == [] && sinks == [] && pushed == []
    {
      errors, sinks, pushed := [], [], [];
    }

    method RegisterSink(parent: Option<nat>) returns (id: nat)
      requires Valid() && (parent.Some? ==> parent.value < |sinks|)
      modifies this
      ensures Valid() && id == |old(sinks)| && sinks == old(sinks) + [ErrorSinkData(parent, false)]
      ensures errors == old(errors) && pushed == old(pushed)
    {
      RegisteredTells(sinks, pushed, parent);
      id := |sinks|;
      sinks := sinks + [ErrorSinkData(parent, false)];
    }

    method Push(id: nat, error: T)
      requires Valid() && id < |sinks|
      modifies this
      ensures Valid() && errors == old(errors) + [error] && pushed == old(pushed) + [id]
      ensures sinks == Marked(old(sinks), id)
    {
      ghost var was := sinks;
      errors, pushed := errors + [error], pushed + [id];
      sinks := sinks[id := sinks[id].(hasErrors := true)];
      var curr := id;
      forall i: nat | Descends(was, id, i) ensures i <= id { DescendsDown(was, id, i); }
      while sinks[curr].parent.Some?
        invariant curr < |sinks| && SameTree(was, sinks) && Descends(was, id, curr)
        invariant errors == old(errors) + [error] && pushed == old(pushed) + [id]
        invariant forall i :: 0 <= i < |sinks| ==>
          (sinks[i].hasErrors <==> was[i].hasErrors || (i >= curr && Descends(was, id, i)))
        decreases curr
      {
        DescendsToParent(was, id, curr);
        var parent := sinks[curr].parent.value;
        forall i | parent < i < curr ensures !Descends(was, id, i) {
          if Descends(was, id, i) {
            AncestorsAreNested(was, id, i, curr);
            DescendsDown(was, parent, i);
          }
        }
        sinks := sinks[parent := sinks[parent].(hasErrors := true)];
        curr := parent;
      }
      forall i | 0 <= i < curr ensures !Descends(was, id, i) {
        if Descends(was, id, i) { AncestorsAreNested(was, id, i, curr); }
      }
      assert sinks == Marked(was, id);
      MarkedTells(was, old(pushed), id);
    }

    /** Says of a sink whether an error came in at it or at a descendant. */
    method HasErrors(id: nat) returns (r: bool)
      requires Valid() && id < |sinks|
      ensures r <==> exists k :: 0 <= k < |pushed| && Descends(sinks, pushed[k], id)
    {
      r := sinks[id].hasErrors;
    }
  }
}
