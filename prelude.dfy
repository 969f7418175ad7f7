/** List and dictionary helpers the command layer relies on: `pop(0)`, `first`, `maplist` and `dict`. */
module Prelude {
  import opened Wrappers
  import opened Errors

  /** `xs.pop(0)`: the head and the rest, or IndexError on an empty list. */
  function PopFront<T>(xs: seq<T>): (r: Fallible<(T, seq<T>)>)
    ensures r.Success? <==> |xs| > 0
    ensures r.Success? ==> [r.value.0] + r.value.1 == xs
    ensures r.Failure? ==> r.error == IndexError
  {
    if |xs| == 0 then Failure(IndexError) else Success((xs[0], xs[1..]))
  }

  /** `first(xs)`: the head, or nothing for an empty list. */
  function First<T>(xs: seq<T>): (r: Option<T>)
    ensures r.Some? <==> |xs| > 0
    ensures r.Some? ==> r.value == xs[0]
  {
    if |xs| == 0 then None else Some(xs[0])
  }

  /**
   * `maplist(f, xs)`: applies `f` left to right; the first element on which
   * `f` raises makes the whole call raise that error.
   */
  function MapList<A, B>(f: A -> Fallible<B>, xs: seq<A>): (r: Fallible<seq<B>>)
    ensures r.Success? <==> forall i :: 0 <= i < |xs| ==> f(xs[i]).Success?
    ensures r.Success? ==> |r.value| == |xs| && forall i :: 0 <= i < |xs| ==> f(xs[i]) == Success(r.value[i])
    ensures r.Failure? ==>
      exists i :: 0 <= i < |xs| && f(xs[i]) == Failure(r.error) && forall j :: 0 <= j < i ==> f(xs[j]).Success?
  {
    if |xs| == 0 then Success([])
    else
      match f(xs[0])
      case Failure(e) => Failure(e)
      case Success(y) =>
        match MapList(f, xs[1..])
        case Failure(e) =>
          assert exists i :: 0 <= i < |xs[1..]| && f(xs[1..][i]) == Failure(e) && forall j :: 0 <= j < i ==> f(xs[1..][j]).Success?;
          var i :| 0 <= i < |xs[1..]| && f(xs[1..][i]) == Failure(e) && forall j :: 0 <= j < i ==> f(xs[1..][j]).Success?;
          assert f(xs[i + 1]) == Failure(e);
          assert forall j :: 0 <= j < i + 1 ==> f(xs[j]).Success? by {
            forall j | 0 <= j < i + 1 ensures f(xs[j]).Success? {
              if j > 0 { assert xs[j] == xs[1..][j - 1]; }
            }
          }
          Failure(e)
        case Success(ys) => Success([y] + ys)
  }

  /** `r` with `done` in front of its value. */
  function Prefixed<T>(done: seq<T>, r: Fallible<seq<T>>): Fallible<seq<T>>
  {
    match r
    case Success(rest) => Success(done + rest)
    case Failure(e) => Failure(e)
  }

  /** Appending the head of `ys` and then its tail appends `ys`. */
  lemma HeadThenTail<T>(xs: seq<T>, ys: seq<T>)
    requires |ys| > 0
    ensures xs + [ys[0]] + ys[1..] == xs + ys
  {
    assert [ys[0]] + ys[1..] == ys;
  }

  /** `dict(pairs)`: keys inserted left to right, so the last pair for a key wins. */
  function DictOf<K, V>(pairs: seq<(K, V)>): (r: map<K, V>)
    ensures r.Keys == set i | 0 <= i < |pairs| :: pairs[i].0
    ensures forall i :: 0 <= i < |pairs| && (forall j :: i < j < |pairs| ==> pairs[j].0 != pairs[i].0) ==>
      r[pairs[i].0] == pairs[i].1
  {
    if |pairs| == 0 then map[]
    else
      var init := pairs[..|pairs| - 1];
      var last := pairs[|pairs| - 1];
      assert forall i :: 0 <= i < |init| ==> init[i] == pairs[i];
      assert (set i | 0 <= i < |pairs| :: pairs[i].0) == (set i | 0 <= i < |init| :: init[i].0) + {last.0};
      DictOf(init)[last.0 := last.1]
  }
}
