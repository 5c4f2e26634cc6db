/** The optional value used wherever the scripts skip a record instead of storing it. */
module Optional {

  datatype Option<+T> = None | Some(value: T)

  /** What a loop that appends `f(x).value` for each `x`, and skips `x` when `f(x)` is `None`, builds. */
  function Kept<A, B>(f: A -> Option<B>, xs: seq<A>): seq<B>
    decreases |xs|
  {
    if |xs| == 0 then []
    else
      var rest := Kept(f, xs[..|xs| - 1]);
      match f(xs[|xs| - 1])
      case Some(b) => rest + [b]
      case None => rest
  }

  /** The number of `x` for which `f(x)` is present. */
  function CountSome<A, B>(f: A -> Option<B>, xs: seq<A>): nat
    decreases |xs|
  {
    if |xs| == 0 then 0
    else CountSome(f, xs[..|xs| - 1]) + (if f(xs[|xs| - 1]).Some? then 1 else 0)
  }

  /** One element kept per present value and none for the rest, so never more than the input. */
  lemma {:induction false} KeptCount<A, B>(f: A -> Option<B>, xs: seq<A>)
    decreases |xs|
    ensures |Kept(f, xs)| == CountSome(f, xs) <= |xs|
  {
    if |xs| > 0 {
      KeptCount(f, xs[..|xs| - 1]);
    }
  }

  /** When every value is present nothing is skipped and element `i` comes from `xs[i]`. */
  lemma {:induction false} KeptAll<A, B>(f: A -> Option<B>, xs: seq<A>)
    requires forall i :: 0 <= i < |xs| ==> f(xs[i]).Some?
    decreases |xs|
    ensures |Kept(f, xs)| == |xs|
    ensures forall i :: 0 <= i < |xs| ==> Kept(f, xs)[i] == f(xs[i]).value
  {
    if |xs| > 0 {
      var pre := xs[..|xs| - 1];
      assert forall i :: 0 <= i < |pre| ==> pre[i] == xs[i];
      KeptAll(f, pre);
    }
  }

  /** What a loop that appends `f(x)` for each `x` builds, where `f` is defined on every `x`. */
  function Mapped<A, B>(f: A --> B, xs: seq<A>): seq<B>
    requires forall i :: 0 <= i < |xs| ==> f.requires(xs[i])
    decreases |xs|
  {
    if |xs| == 0 then [] else Mapped(f, xs[..|xs| - 1]) + [f(xs[|xs| - 1])]
  }

  /** Nothing is skipped: element `i` is `f(xs[i])`. */
  lemma {:induction false} MappedAt<A, B>(f: A --> B, xs: seq<A>)
    requires forall i :: 0 <= i < |xs| ==> f.requires(xs[i])
    decreases |xs|
    ensures |Mapped(f, xs)| == |xs|
    ensures forall i :: 0 <= i < |xs| ==> Mapped(f, xs)[i] == f(xs[i])
  {
    if |xs| > 0 {
      var pre := xs[..|xs| - 1];
      assert forall i :: 0 <= i < |pre| ==> pre[i] == xs[i];
      MappedAt(f, pre);
    }
  }

  /** Every kept value comes from some element of the input. */
  lemma {:induction false} KeptFrom<A, B>(f: A -> Option<B>, xs: seq<A>)
    decreases |xs|
    ensures forall i :: 0 <= i < |Kept(f, xs)| ==> exists j :: 0 <= j < |xs| && f(xs[j]) == Some(Kept(f, xs)[i])
  {
    if |xs| > 0 {
      var pre := xs[..|xs| - 1];
      KeptFrom(f, pre);
      var r := Kept(f, xs);
      forall i | 0 <= i < |r|
        ensures exists j :: 0 <= j < |xs| && f(xs[j]) == Some(r[i])
      {
        if i < |Kept(f, pre)| {
          var j :| 0 <= j < |pre| && f(pre[j]) == Some(Kept(f, pre)[i]);
          assert pre[j] == xs[j];
        } else {
          assert f(xs[|xs| - 1]) == Some(r[i]);
        }
      }
    } else {
      assert Kept(f, xs) == [];
    }
  }

  /** Every present value is kept. */
  lemma {:induction false} KeptHas<A, B>(f: A -> Option<B>, xs: seq<A>)
    decreases |xs|
    ensures forall j :: 0 <= j < |xs| && f(xs[j]).Some? ==> f(xs[j]).value in Kept(f, xs)
  {
    if |xs| > 0 {
      var pre := xs[..|xs| - 1];
      KeptHas(f, pre);
      forall j | 0 <= j < |xs| && f(xs[j]).Some?
        ensures f(xs[j]).value in Kept(f, xs)
      {
        if j < |pre| {
          assert pre[j] == xs[j];
        }
      }
    }
  }
}
