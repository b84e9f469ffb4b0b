/** Option and Result, the failure-compatible wrappers used throughout the model
    in place of Python's `None` and raised exceptions. */
module Wrappers {

  datatype Option<+T> = None | Some(value: T) {
    function GetOr(default: T): T {
      match this
      case Some(v) => v
      case None => default
    }
  }

  datatype Result<+T, +E> = Ok(value: T) | Err(error: E) {
    predicate IsFailure() {
      Err?
    }

    function PropagateFailure<U>(): Result<U, E>
      requires Err?
    {
      Err(error)
    }

    function Extract(): T
      requires Ok?
    {
      value
    }
  }

  /** `acc` followed by the list `r` carries, or `r`'s error: what a loop that
      has already collected `acc` ends with when the rest of its work yields `r`. */
  function Prepend<T, E>(acc: seq<T>, r: Result<seq<T>, E>): Result<seq<T>, E> {
    match r
    case Ok(rest) => Ok(acc + rest)
    case Err(e) => Err(e)
  }

  /** The list `first` carries followed by the list `rest` carries; the
      first error wins. */
  function Chain<T, E>(first: Result<seq<T>, E>, rest: Result<seq<T>, E>): Result<seq<T>, E> {
    match first
    case Ok(x) => Prepend(x, rest)
    case Err(e) => Err(e)
  }

  lemma ChainPrepend<T, E>(a: seq<T>, first: Result<seq<T>, E>, rest: Result<seq<T>, E>)
    ensures Chain(Prepend(a, first), rest) == Prepend(a, Chain(first, rest))
  {
    if first.Ok? {
      PrependTwice(a, first.value, rest);
    }
  }

  lemma ChainAssociates<T, E>(x: Result<seq<T>, E>, y: Result<seq<T>, E>, z: Result<seq<T>, E>)
    ensures Chain(Chain(x, y), z) == Chain(x, Chain(y, z))
  {
    if x.Ok? {
      ChainPrepend(x.value, y, z);
    }
  }

  /** `ChainAssociates` over named parts: a chain whose tail splits in two
      is the chain of its first part with the second. */
  lemma ChainGlue<T, E>(whole: Result<seq<T>, E>, h: Result<seq<T>, E>, restAB: Result<seq<T>, E>,
                        allA: Result<seq<T>, E>, restA: Result<seq<T>, E>, allB: Result<seq<T>, E>)
    requires whole == Chain(h, restAB) && restAB == Chain(restA, allB) && allA == Chain(h, restA)
    ensures whole == Chain(allA, allB)
  {
    ChainAssociates(h, restA, allB);
  }

  /** The head and the tail of a concatenation whose first part is not empty. */
  lemma ConsAppend<T>(a: seq<T>, b: seq<T>)
    requires a != []
    ensures a + b != [] && (a + b)[0] == a[0] && (a + b)[1..] == a[1..] + b
  {
  }

  /** Moving the first element of `more` to the end of `x` keeps the concatenation. */
  lemma ShiftFirst<T>(x: seq<T>, more: seq<T>)
    requires more != []
    ensures (x + [more[0]]) + more[1..] == x + more
  {
  }

  /** Reassociation of `h + rest` where the rest is split in two. */
  lemma ConcatGlue<T>(whole: seq<T>, h: seq<T>, restAB: seq<T>, allA: seq<T>, restA: seq<T>, allB: seq<T>)
    requires whole == h + restAB && restAB == restA + allB && allA == h + restA
    ensures whole == allA + allB
  {
  }

  lemma PrependNothing<T, E>(r: Result<seq<T>, E>)
    ensures Prepend([], r) == r
  {
    if r.Ok? {
      assert [] + r.value == r.value;
    }
  }

  lemma PrependTwice<T, E>(a: seq<T>, b: seq<T>, r: Result<seq<T>, E>)
    ensures Prepend(a, Prepend(b, r)) == Prepend(a + b, r)
  {
    if r.Ok? {
      assert a + (b + r.value) == (a + b) + r.value;
    }
  }

  /** `f` applied to each element in order; the first error stops the walk
      and becomes the result. */
  function MapAll<A, B, E>(xs: seq<A>, f: A -> Result<B, E>): Result<seq<B>, E> {
    if xs == [] then Ok([])
    else
      var y :- f(xs[0]);
      Prepend([y], MapAll(xs[1..], f))
  }

  /** The walk from position `i`: the result of element `i`, then the rest,
      or the error of element `i`. */
  lemma MapAllAt<A, B, E>(xs: seq<A>, i: nat, f: A -> Result<B, E>)
    requires i < |xs|
    ensures f(xs[i]).Err? ==> MapAll(xs[i..], f) == Err(f(xs[i]).error)
    ensures f(xs[i]).Ok? ==> MapAll(xs[i..], f) == Prepend([f(xs[i]).value], MapAll(xs[i + 1..], f))
  {
    assert xs[i..][0] == xs[i] && xs[i..][1..] == xs[i + 1..];
  }

  /** The walk succeeds exactly when every element does, and then holds the
      result of each element, in order. */
  lemma {:induction false} MapAllOk<A, B, E>(xs: seq<A>, f: A -> Result<B, E>)
    ensures MapAll(xs, f).Ok? <==> forall i :: 0 <= i < |xs| ==> f(xs[i]).Ok?
    ensures MapAll(xs, f).Ok? ==>
      |MapAll(xs, f).value| == |xs| &&
      forall i :: 0 <= i < |xs| ==> f(xs[i]).Ok? && MapAll(xs, f).value[i] == f(xs[i]).value
    decreases |xs|
  {
    if xs != [] {
      MapAllOk(xs[1..], f);
      assert forall i :: 0 < i < |xs| ==> xs[1..][i - 1] == xs[i];
    }
  }

  /** A walk that fails fails with the error of one of its elements. */
  lemma {:induction false} MapAllErr<A, B, E>(xs: seq<A>, f: A -> Result<B, E>)
    requires MapAll(xs, f).Err?
    ensures exists i :: 0 <= i < |xs| && f(xs[i]).Err? && MapAll(xs, f).error == f(xs[i]).error
    decreases |xs|
  {
    if f(xs[0]).Ok? {
      MapAllErr(xs[1..], f);
      var i :| 0 <= i < |xs[1..]| && f(xs[1..][i]).Err? && MapAll(xs[1..], f).error == f(xs[1..][i]).error;
      assert xs[1..][i] == xs[i + 1];
    }
  }
}

/** The exceptions the converter raises, one constructor per distinct cause. */
module Errors {

  datatype Error =
    | MissingValue                       // LeafNode.to_html: value is None
    | MissingTag                         // ParentNode.to_html: tag is None
    | MissingChildren                    // ParentNode.to_html: children is None
    | MissingUrl                         // text_node_to_html_node: LINK or IMAGE without url
    | UnterminatedDelimiter(delimiter: string) // process_text_node: no closing delimiter
    | MissingMarker(marker: string)      // split_nodes_image/link: split(marker, 1)[1] of a text without the marker
}
