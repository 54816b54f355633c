/**
  The JavaScript values that a parsed score record holds, and the two
  number conversions of the host that the lookup uses but that are not
  modelled in detail.
 */
module JsValue {
  import opened JsText

  datatype Option<+T> = None | Some(value: T)

  /** A cell of a record: `null`, a string, or a finite number (taken as a
      real; floating-point rounding is not modelled). */
  datatype Value = Null | Str(s: string) | Num(n: real)

  /** A student object: header string to cell. A key that is absent reads
      as `undefined`. */
  type Record = map<string, Value>

  /** The host's number conversions, given as parameters:
      `parseFloat` (None stands for NaN) and `String(x)` for a number. */
  datatype Host = Host(parseFloat: string -> Option<real>, numberToString: real -> string)

  /** JavaScript truthiness: `null`, the empty string and 0 are falsy. */
  predicate Truthy(v: Value) {
    match v
    case Null => false
    case Str(s) => s != ""
    case Num(x) => x != 0.0
  }

  /** `String(v)`. */
  function ToJsString(host: Host, v: Value): string {
    match v
    case Null => "null"
    case Str(s) => s
    case Num(x) => host.numberToString(x)
  }

  /** `String(record[key])`, where a missing key reads as `undefined`. */
  function FieldString(host: Host, record: Record, key: string): string
  {
    if key in record then ToJsString(host, record[key]) else "undefined"
  }

  /** `xs.find(test)`: the first element that passes the test. */
  function Find<T>(xs: seq<T>, test: T -> bool): Option<T> {
    if xs == [] then None
    else if test(xs[0]) then Some(xs[0])
    else Find(xs[1..], test)
  }

  lemma FindSingle<T>(x: T, test: T -> bool)
    ensures Find([x], test) == if test(x) then Some(x) else None
  {
    assert [x][1..] == [];
  }

  /** `find` returns nothing exactly when no element passes the test. */
  lemma {:induction false} FindNone<T>(xs: seq<T>, test: T -> bool)
    ensures Find(xs, test).None? <==> forall i :: 0 <= i < |xs| ==> !test(xs[i])
  {
    if xs != [] && !test(xs[0]) {
      FindNone(xs[1..], test);
      assert forall i :: 1 <= i < |xs| ==> xs[i] == xs[1..][i - 1];
    }
  }

  /** What `find` returns is the first element that passes the test. */
  lemma {:induction false} FindIsFirst<T>(xs: seq<T>, test: T -> bool)
    requires Find(xs, test).Some?
    ensures exists i :: (0 <= i < |xs| && xs[i] == Find(xs, test).value && test(xs[i])
      && forall j :: 0 <= j < i ==> !test(xs[j]))
  {
    if !test(xs[0]) {
      var tail := xs[1..];
      FindIsFirst(tail, test);
      var i :| 0 <= i < |tail| && tail[i] == Find(tail, test).value && test(tail[i])
        && forall j :: 0 <= j < i ==> !test(tail[j]);
      assert xs[i + 1] == tail[i];
      assert forall j :: 1 <= j <= i ==> xs[j] == tail[j - 1];
    }
  }

  /** `xs.filter(test)`: the elements that pass the test, in order. */
  function Filter<T>(xs: seq<T>, test: T -> bool): seq<T> {
    if xs == [] then []
    else
      var rest := Filter(xs[..|xs| - 1], test);
      if test(xs[|xs| - 1]) then rest + [xs[|xs| - 1]] else rest
  }

  /** The filter keeps exactly the elements that pass, and no more elements
      than there were. */
  lemma {:induction false} FilterKeepsPassing<T>(xs: seq<T>, test: T -> bool)
    ensures |Filter(xs, test)| <= |xs|
    ensures forall x :: x in Filter(xs, test) <==> x in xs && test(x)
  {
    if xs != [] {
      var init := xs[..|xs| - 1];
      assert xs == init + [xs[|xs| - 1]];
      FilterKeepsPassing(init, test);
    }
  }

  /** When every element passes, the filter keeps them all. */
  lemma {:induction false} FilterAllPass<T>(xs: seq<T>, test: T -> bool)
    requires forall i :: 0 <= i < |xs| ==> test(xs[i])
    ensures Filter(xs, test) == xs
  {
    if xs != [] {
      FilterAllPass(xs[..|xs| - 1], test);
    }
  }

  /** The loop that pushes `f(x)` for every `x` that passes `keep`. */
  function KeepMap<T, R>(xs: seq<T>, keep: T -> bool, f: T -> R): seq<R> {
    if xs == [] then []
    else
      var rest := KeepMap(xs[..|xs| - 1], keep, f);
      if keep(xs[|xs| - 1]) then rest + [f(xs[|xs| - 1])] else rest
  }

  lemma KeepMapSnoc<T, R>(xs: seq<T>, x: T, keep: T -> bool, f: T -> R)
    ensures KeepMap(xs + [x], keep, f) == if keep(x) then KeepMap(xs, keep, f) + [f(x)] else KeepMap(xs, keep, f)
  {
    assert (xs + [x])[..|xs|] == xs;
  }

  /** Every output is the image of a kept input, every kept input has its
      image in the output, and there are no more outputs than inputs. */
  lemma {:induction false} KeepMapMembers<T, R>(xs: seq<T>, keep: T -> bool, f: T -> R)
    ensures |KeepMap(xs, keep, f)| <= |xs|
    ensures forall y :: y in KeepMap(xs, keep, f) ==> exists x :: x in xs && keep(x) && y == f(x)
    ensures forall x :: x in xs && keep(x) ==> f(x) in KeepMap(xs, keep, f)
  {
    if xs != [] {
      var init := xs[..|xs| - 1];
      assert xs == init + [xs[|xs| - 1]];
      KeepMapMembers(init, keep, f);
    }
  }

  /** The outputs keep the order of the inputs. */
  lemma {:induction false} KeepMapAppend<T, R>(xs: seq<T>, ys: seq<T>, keep: T -> bool, f: T -> R)
    ensures KeepMap(xs + ys, keep, f) == KeepMap(xs, keep, f) + KeepMap(ys, keep, f)
    decreases |ys|
  {
    if ys == [] {
      assert xs + ys == xs;
    } else {
      var init, y := ys[..|ys| - 1], ys[|ys| - 1];
      assert ys == init + [y];
      assert xs + ys == (xs + init) + [y];
      KeepMapAppend(xs, init, keep, f);
      KeepMapSnoc(xs + init, y, keep, f);
      KeepMapSnoc(init, y, keep, f);
    }
  }
}
