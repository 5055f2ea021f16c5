// `collect_results` of the derive crate (serde_mtproto_derive/src/ext.rs):
// one pass over a sequence of results that keeps every success and every
// error, and reports either all successes or, if there was any error, all
// errors.
module DeriveExt {

  /// Rust's `Result<T, E>`.
  datatype Outcome<T, E> = Ok(value: T) | Err(error: E)

  /// The payloads of the successes, in order.
  function Oks<T, E>(rs: seq<Outcome<T, E>>): seq<T>
  {
    if rs == [] then []
    else (if rs[0].Ok? then [rs[0].value] else []) + Oks(rs[1..])
  }

  /// The payloads of the errors, in order.
  function Errs<T, E>(rs: seq<Outcome<T, E>>): seq<E>
  {
    if rs == [] then []
    else (if rs[0].Err? then [rs[0].error] else []) + Errs(rs[1..])
  }

  /// What `collect_results` returns: every payload, in order, when every
  /// result is a success, and otherwise the non-empty list of every error's
  /// payload, in order.
  function Collected<T, E>(rs: seq<Outcome<T, E>>): (r: Outcome<seq<T>, seq<E>>)
    ensures r.Ok? <==> forall i :: 0 <= i < |rs| ==> rs[i].Ok?
    ensures r.Ok? ==> |r.value| == |rs| && forall i :: 0 <= i < |rs| ==> r.value[i] == rs[i].value
    ensures r.Err? ==> r.error != [] && r.error == Errs(rs)
  {
    NoErrorsMeansAllOk(rs);
    if |Errs(rs)| == 0 then Ok(Oks(rs)) else Err(Errs(rs))
  }

  /// The loop: push each success onto items and each error onto errors,
  /// then decide by the number of errors.
  method CollectResults<T, E>(rs: seq<Outcome<T, E>>) returns (r: Outcome<seq<T>, seq<E>>)
    ensures r == Collected(rs)
  {
    var items: seq<T> := [];
    var errors: seq<E> := [];
    for i := 0 to |rs|
      invariant items == Oks(rs[..i]) && errors == Errs(rs[..i])
    {
      SplitLast(rs[..i + 1]);
      assert rs[..i + 1][..i] == rs[..i];
      match rs[i] {
        case Ok(item) => items := items + [item];
        case Err(error) => errors := errors + [error];
      }
    }
    assert rs[..|rs|] == rs;
    if |errors| == 0 {
      r := Ok(items);
    } else {
      r := Err(errors);
    }
  }

  /// Both lists of a sequence with one more result at the end.
  lemma {:induction false} SplitLast<T, E>(rs: seq<Outcome<T, E>>)
    requires rs != []
    ensures var last := rs[|rs| - 1]; var front := rs[..|rs| - 1];
            Oks(rs) == Oks(front) + (if last.Ok? then [last.value] else [])
            && Errs(rs) == Errs(front) + (if last.Err? then [last.error] else [])
  {
    OksAppend(rs[..|rs| - 1], [rs[|rs| - 1]]);
    ErrsAppend(rs[..|rs| - 1], [rs[|rs| - 1]]);
    assert rs[..|rs| - 1] + [rs[|rs| - 1]] == rs;
    assert [rs[|rs| - 1]][1..] == [];
  }

  /// The successes of two sequences one after the other.
  lemma {:induction false} OksAppend<T, E>(a: seq<Outcome<T, E>>, b: seq<Outcome<T, E>>)
    ensures Oks(a + b) == Oks(a) + Oks(b)
  {
    if a != [] {
      assert (a + b)[0] == a[0] && (a + b)[1..] == a[1..] + b;
      OksAppend(a[1..], b);
    } else {
      assert a + b == b;
    }
  }

  lemma {:induction false} ErrsAppend<T, E>(a: seq<Outcome<T, E>>, b: seq<Outcome<T, E>>)
    ensures Errs(a + b) == Errs(a) + Errs(b)
  {
    if a != [] {
      assert (a + b)[0] == a[0] && (a + b)[1..] == a[1..] + b;
      ErrsAppend(a[1..], b);
    } else {
      assert a + b == b;
    }
  }

  /// Every result lands in exactly one of the two lists.
  lemma {:induction false} EachResultOnce<T, E>(rs: seq<Outcome<T, E>>)
    ensures |Oks(rs)| + |Errs(rs)| == |rs|
  {
    if rs != [] {
      EachResultOnce(rs[1..]);
    }
  }

  /// There is no error exactly when every result is a success, and then the
  /// successes are the payloads one for one, in order.
  lemma {:induction false} NoErrorsMeansAllOk<T, E>(rs: seq<Outcome<T, E>>)
    ensures |Errs(rs)| == 0 <==> forall i :: 0 <= i < |rs| ==> rs[i].Ok?
    ensures |Errs(rs)| == 0 ==> |Oks(rs)| == |rs| && forall i :: 0 <= i < |rs| ==> Oks(rs)[i] == rs[i].value
  {
    if rs != [] {
      NoErrorsMeansAllOk(rs[1..]);
      assert forall i :: 1 <= i < |rs| ==> rs[i] == rs[1..][i - 1];
    }
  }

  /// Likewise, the errors are all the results when every result is an error.
  lemma {:induction false} AllErrors<T, E>(rs: seq<Outcome<T, E>>)
    requires forall i :: 0 <= i < |rs| ==> rs[i].Err?
    ensures Errs(rs) == seq(|rs|, i requires 0 <= i < |rs| => rs[i].error)
  {
    if rs != [] {
      AllErrors(rs[1..]);
    }
  }

  /// An error anywhere makes the whole an error, and the successes are dropped.
  lemma AnyErrorFails<T, E>(rs: seq<Outcome<T, E>>, i: nat)
    requires i < |rs| && rs[i].Err?
    ensures Collected(rs).Err? && rs[i].error in Collected(rs).error
  {
    ErrsAppend(rs[..i], rs[i..]);
    assert rs[..i] + rs[i..] == rs;
    assert Errs(rs[i..])[0] == rs[i].error;
  }

  lemma NoInputNoErrors<T, E>()
    ensures Collected<T, E>([]) == Ok([])
  {
  }
}
