/** Optional values and the decoder's error outcomes. The exceptions the
    decoder raises (`ParserError`, `InvalidEncodingChars`, `InvalidName`, and
    the `IndexError` of an exhausted group search) become `Err` values. */
module Results {

  datatype Option<+T> = None | Some(value: T) {
    function GetOr(default: T): T {
      match this
      case Some(v) => v
      case None => default
    }
  }

  datatype ParseError =
    | ParserError(message: string)
    | InvalidEncodingChars(message: string)
    | InvalidName(name: string)
      /** `_find_group` read the top of an empty search stack. */
    | EmptySearchStack

  datatype Result<+T> = Ok(value: T) | Err(error: ParseError) {
    predicate IsFailure() {
      Err?
    }

    function PropagateFailure<U>(): Result<U>
      requires Err?
    {
      Err(error)
    }

    function Extract(): T
      requires Ok?
    {
      value
    }
  }

  /** Decodes each source in order, as the decoder's list comprehensions and
      loops do: the first error is the result, otherwise the decoded values. */
  function Collect<X, T>(xs: seq<X>, at: X -> Result<T>): Result<seq<T>>
  {
    if |xs| == 0 then Ok([])
    else
      var t :- at(xs[0]);
      var rest :- Collect(xs[1..], at);
      Ok([t] + rest)
  }

  /** Collecting succeeds exactly when every source decodes, and then gives
      each source's value at its own position. */
  lemma {:induction false} CollectEach<X, T>(xs: seq<X>, at: X -> Result<T>)
    ensures var r := Collect(xs, at);
      && (r.Ok? <==> forall k :: 0 <= k < |xs| ==> at(xs[k]).Ok?)
      && (r.Ok? ==> |r.value| == |xs| && forall k :: 0 <= k < |xs| ==> r.value[k] == at(xs[k]).value)
  {
    if |xs| > 0 {
      CollectEach(xs[1..], at);
      var rest := xs[1..];
      assert forall k :: 0 <= k < |rest| ==> rest[k] == xs[k + 1];
      if forall k :: 0 <= k < |rest| ==> at(rest[k]).Ok? {
        assert forall k :: 1 <= k < |xs| ==> xs[k] == rest[k - 1];
      }
    }
  }

  /** The parts one after the other. */
  function Concat<T>(parts: seq<seq<T>>): seq<T> {
    if |parts| == 0 then [] else parts[0] + Concat(parts[1..])
  }

  /** The parts of a successful result, one after the other. */
  function Concatenated<T>(r: Result<seq<seq<T>>>): Result<seq<T>> {
    match r
    case Err(e) => Err(e)
    case Ok(parts) => Ok(Concat(parts))
  }

  /** The first two parts come first, in order. */
  lemma ConcatTwo<T>(parts: seq<seq<T>>)
    requires |parts| >= 2
    ensures Concat(parts) == parts[0] + parts[1] + Concat(parts[2..])
  {
    assert parts[1..][0] == parts[1];
    assert parts[1..][1..] == parts[2..];
  }

  /** Collecting a concatenation collects the first part, then the second. */
  lemma {:induction false} CollectConcat<X, T>(a: seq<X>, b: seq<X>, at: X -> Result<T>)
    ensures Collect(a + b, at) ==
      match Collect(a, at)
      case Err(e) => Err(e)
      case Ok(x) =>
        match Collect(b, at)
        case Err(e) => Err(e)
        case Ok(y) => Ok(x + y)
    decreases |a|
  {
    if |a| == 0 {
      assert a + b == b;
      var y := Collect(b, at);
      if y.Ok? {
        assert [] + y.value == y.value;
      }
    } else {
      assert (a + b)[0] == a[0];
      assert (a + b)[1..] == a[1..] + b;
      CollectConcat(a[1..], b, at);
      var first := at(a[0]);
      var x := Collect(a[1..], at);
      var y := Collect(b, at);
      if first.Ok? && x.Ok? && y.Ok? {
        assert [first.value] + (x.value + y.value) == ([first.value] + x.value) + y.value;
      }
    }
  }
}
