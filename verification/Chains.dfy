/** Middleware chains: a list of handler transformers folded around a handler. */
module Chains {
  import opened Tables

  /** The handler that runs the middlewares of `ms` in list order around `h`. */
  function Nest<H>(ms: seq<H -> H>, h: H): H {
    if |ms| == 0 then h else ms[0](Nest(ms[1..], h))
  }

  /** Appending a chain is nesting it. */
  lemma {:induction false} NestAppend<H>(a: seq<H -> H>, b: seq<H -> H>, h: H)
    ensures Nest(a + b, h) == Nest(a, Nest(b, h))
  {
    if |a| == 0 {
      assert a + b == b;
    } else {
      assert (a + b)[1..] == a[1..] + b;
      NestAppend(a[1..], b, h);
    }
  }

  lemma NestAt<H>(ms: seq<H -> H>, i: nat, h: H)
    requires i < |ms|
    ensures Nest(ms[i..], h) == ms[i](Nest(ms[i + 1..], h))
  {
    assert ms[i..][1..] == ms[i + 1..];
  }

  class Chain<H> {
    var middlewares: seq<H -> H>

    constructor (middlewares: seq<H -> H>)
      ensures this.middlewares == middlewares
    {
      this.middlewares := middlewares;
    }

    /** Then; a missing handler stands for the default mux. */
    method Then(h: Option<H>, mux: H) returns (r: H)
      ensures r == Nest(middlewares, if h.Some? then h.value else mux)
    {
      r := if h.Some? then h.value else mux;
      ghost var inner := r;
      var i := |middlewares|;
      assert middlewares[i..] == [];
      while i > 0
        invariant 0 <= i <= |middlewares|
        invariant r == Nest(middlewares[i..], inner)
      {
        i := i - 1;
        NestAt(middlewares, i, inner);
        r := middlewares[i](r);
      }
      assert middlewares[0..] == middlewares;
    }

    /** Append builds a new chain and leaves this one alone. */
    method Append(more: seq<H -> H>) returns (c: Chain<H>)
      ensures fresh(c) && c.middlewares == middlewares + more
      ensures forall h :: Nest(c.middlewares, h) == Nest(middlewares, Nest(more, h))
    {
      c := new Chain(middlewares + more);
      forall h ensures Nest(c.middlewares, h) == Nest(middlewares, Nest(more, h)) {
        NestAppend(middlewares, more, h);
      }
    }

    method Extend(other: Chain<H>) returns (c: Chain<H>)
      ensures fresh(c) && c.middlewares == middlewares + other.middlewares
      ensures forall h :: Nest(c.middlewares, h) == Nest(middlewares, Nest(other.middlewares, h))
    {
      c := Append(other.middlewares);
    }
  }
}
