/**
 * `getAdapter`'s search: the candidate descriptors are tried in list order
 * and the first whose factory exists and adapts the object wins.
 */
module Lookup {
  import opened Wrappers
  import opened Adapters

  /** A factory that exists and produces an adapter for `x` as `t`. */
  predicate Succeeds(f: Option<AdapterFactory>, x: Obj, t: string) {
    f.Some? && f.value.adapt(x, t).Some?
  }

  /**
   * The adapter produced by the first succeeding factory of `fs`; factories
   * that are missing or return nothing are skipped.  `None` when none succeeds.
   */
  function FirstSuccess(fs: seq<Option<AdapterFactory>>, x: Obj, t: string): (r: Option<Obj>)
    ensures r.Some? <==> exists i :: 0 <= i < |fs| && Succeeds(fs[i], x, t)
    ensures r.Some? ==> exists i :: 0 <= i < |fs| && Succeeds(fs[i], x, t) && r == fs[i].value.adapt(x, t)
                           && forall j :: 0 <= j < i ==> !Succeeds(fs[j], x, t)
    decreases |fs|
  {
    if fs == [] then None
    else if Succeeds(fs[0], x, t) then fs[0].value.adapt(x, t)
    else
      var rest := FirstSuccess(fs[1..], x, t);
      assert forall i :: 1 <= i < |fs| ==> fs[i] == fs[1..][i - 1];
      if rest.Some? then
        var i :| 0 <= i < |fs[1..]| && Succeeds(fs[1..][i], x, t) && rest == fs[1..][i].value.adapt(x, t)
                 && forall j :: 0 <= j < i ==> !Succeeds(fs[1..][j], x, t);
        assert Succeeds(fs[i + 1], x, t) && forall j :: 0 <= j < i + 1 ==> !Succeeds(fs[j], x, t);
        rest
      else rest
  }

  /**
   * Trying `a` then `b`: an adapter found in `a` hides everything in `b`, so
   * the candidates placed first take precedence.
   */
  lemma {:induction false} FirstSuccessAppend(a: seq<Option<AdapterFactory>>, b: seq<Option<AdapterFactory>>, x: Obj, t: string)
    ensures FirstSuccess(a + b, x, t) == if FirstSuccess(a, x, t).Some? then FirstSuccess(a, x, t) else FirstSuccess(b, x, t)
    decreases |a|
  {
    if a != [] {
      assert (a + b)[0] == a[0];
      assert (a + b)[1..] == a[1..] + b;
      FirstSuccessAppend(a[1..], b, x, t);
    } else {
      assert a + b == b;
    }
  }

  /** Skipping a prefix of failures does not change the outcome. */
  lemma {:induction false} FirstSuccessSkip(fs: seq<Option<AdapterFactory>>, i: nat, x: Obj, t: string)
    requires i < |fs|
    requires !Succeeds(fs[i], x, t)
    ensures FirstSuccess(fs[i..], x, t) == FirstSuccess(fs[i + 1..], x, t)
  {
    assert fs[i..][0] == fs[i];
    assert fs[i..][1..] == fs[i + 1..];
  }

  /** The factories the descriptors of `ds` would hand out now, in order. */
  function Factories(ds: seq<AdapterFactoryDescriptor>): (fs: seq<Option<AdapterFactory>>)
    reads ds
    ensures |fs| == |ds|
    ensures forall k :: 0 <= k < |ds| ==> fs[k] == ds[k].CurrentFactory()
    decreases |ds|
  {
    if ds == [] then [] else [ds[0].CurrentFactory()] + Factories(ds[1..])
  }

  /**
   * The loop of `getAdapter`: each descriptor, in order, hands out its
   * factory (locating it on first use), and the first adapter produced is
   * returned.  Locating fills a descriptor's cache but never changes which
   * factory it hands out.
   */
  method TryFactories(descList: seq<AdapterFactoryDescriptor>, adaptable: Obj, target: string) returns (r: Option<Obj>)
    modifies set d | d in descList :: d`factory
    ensures r == FirstSuccess(old(Factories(descList)), adaptable, target)
    ensures forall d :: d in descList ==> d.CurrentFactory() == old(d.CurrentFactory())
  {
    ghost var fs := Factories(descList);
    var i := 0;
    while i < |descList|
      invariant 0 <= i <= |descList|
      invariant forall d :: d in descList ==> d.CurrentFactory() == old(d.CurrentFactory())
      invariant FirstSuccess(fs, adaptable, target) == FirstSuccess(fs[i..], adaptable, target)
    {
      var desc := descList[i];
      var factory := desc.GetFactory();
      if factory.Some? {
        var adaptedObject := factory.value.adapt(adaptable, target);
        if adaptedObject.Some? {
          assert fs[i..][0] == fs[i];
          return adaptedObject;
        }
      }
      FirstSuccessSkip(fs, i, adaptable, target);
      i := i + 1;
    }
    r := None;
  }
}
