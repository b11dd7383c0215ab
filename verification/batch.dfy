/** The batch delete: one `rm` request per selected key, in selection order,
    skipping `..`. A failed item shows its own message and the loop goes on;
    a request that throws ends the handler. */
module Batch {
  import opened Remote
  import opened Entries

  /** What the delete loop has done: the requests sent, the toasts shown and
      whether a request threw. */
  datatype Outcome = Outcome(requests: seq<Request>, toasts: seq<Toast>, aborted: bool)

  /** The delete loop over `keys`, the server answering `rm(k)` to the
      request for `k`. */
  function RunRemovals(keys: seq<string>, rm: string -> Reply<()>): (o: Outcome)
    ensures |o.requests| <= |keys|
    ensures forall r | r in o.requests :: r.Remove? && r.key != ParentKey
    ensures |o.toasts| <= |o.requests|
    decreases |keys|
  {
    if keys == [] then Outcome([], [], false)
    else
      var o := RunRemovals(keys[..|keys| - 1], rm);
      var k := keys[|keys| - 1];
      if o.aborted || k == ParentKey then o
      else Outcome(o.requests + [Remove(k)], o.toasts + FailureToasts(rm(k)), rm(k).Thrown?)
  }

  /** One more turn of the loop, over the prefix `keys[..i + 1]`. */
  lemma RunRemovalsStep(keys: seq<string>, i: nat, rm: string -> Reply<()>)
    requires i < |keys|
    ensures var o := RunRemovals(keys[..i], rm);
            RunRemovals(keys[..i + 1], rm)
            == if o.aborted || keys[i] == ParentKey then o
               else Outcome(o.requests + [Remove(keys[i])], o.toasts + FailureToasts(rm(keys[i])),
                            rm(keys[i]).Thrown?)
  {
    assert keys[..i + 1][..i] == keys[..i];
  }

  /** Reference definitions: one removal per key, and the failures of those
      removals in order. */
  function Removals(keys: seq<string>): (rs: seq<Request>)
    ensures |rs| == |keys|
    ensures forall i | 0 <= i < |keys| :: rs[i] == Remove(keys[i])
  {
    seq(|keys|, i requires 0 <= i < |keys| => Remove(keys[i]))
  }

  function Failures(keys: seq<string>, rm: string -> Reply<()>): (ts: seq<Toast>)
    ensures |ts| <= |keys|
    decreases |keys|
  {
    if keys == [] then []
    else Failures(keys[..|keys| - 1], rm) + FailureToasts(rm(keys[|keys| - 1]))
  }

  predicate NoneThrows(keys: seq<string>, rm: string -> Reply<()>) {
    forall i | 0 <= i < |keys| :: keys[i] != ParentKey ==> !rm(keys[i]).Thrown?
  }

  /** Failures are isolated: when no request throws, every selected key but
      `..` is removed in order, and exactly the failed ones are reported. */
  lemma {:induction false} RemovalsIsolated(keys: seq<string>, rm: string -> Reply<()>)
    requires NoneThrows(keys, rm)
    ensures RunRemovals(keys, rm)
            == Outcome(Removals(WithoutParent(keys)), Failures(WithoutParent(keys), rm), false)
    decreases |keys|
  {
    if keys != [] {
      var init := keys[..|keys| - 1];
      var k := keys[|keys| - 1];
      assert NoneThrows(init, rm) by {
        forall i | 0 <= i < |init| ensures init[i] != ParentKey ==> !rm(init[i]).Thrown? {
          assert init[i] == keys[i];
        }
      }
      RemovalsIsolated(init, rm);
      if k != ParentKey {
        assert !rm(k).Thrown?;
        KeptKey(init, k, rm);
      }
    }
  }

  /** Keeping one more key extends the reference definitions by one. */
  lemma KeptKey(init: seq<string>, k: string, rm: string -> Reply<()>)
    requires k != ParentKey
    ensures WithoutParent(init + [k]) == WithoutParent(init) + [k]
    ensures Removals(WithoutParent(init) + [k]) == Removals(WithoutParent(init)) + [Remove(k)]
    ensures Failures(WithoutParent(init) + [k], rm) == Failures(WithoutParent(init), rm) + FailureToasts(rm(k))
  {
    var w := WithoutParent(init);
    assert (init + [k])[..|init|] == init;
    assert (w + [k])[..|w|] == w;
  }

  /** Deleting a selection that contains `..` behaves exactly as deleting
      the same selection without it. */
  lemma {:induction false} RemovalsIgnoreParent(keys: seq<string>, rm: string -> Reply<()>)
    ensures RunRemovals(keys, rm) == RunRemovals(WithoutParent(keys), rm)
    decreases |keys|
  {
    if keys != [] {
      var init := keys[..|keys| - 1];
      var k := keys[|keys| - 1];
      RemovalsIgnoreParent(init, rm);
      assert keys == init + [k];
      if k != ParentKey {
        var w := WithoutParent(init);
        assert WithoutParent(keys) == w + [k];
        assert (w + [k])[..|w|] == w;
      }
    }
  }

  /** Once a request has thrown, later keys are not attempted. */
  lemma {:induction false} AbortIsFinal(done: seq<string>, rest: seq<string>, rm: string -> Reply<()>)
    requires RunRemovals(done, rm).aborted
    ensures RunRemovals(done + rest, rm) == RunRemovals(done, rm)
    decreases |rest|
  {
    if rest == [] {
      assert done + rest == done;
    } else {
      var rest' := rest[..|rest| - 1];
      assert (done + rest)[..|done + rest| - 1] == done + rest';
      AbortIsFinal(done, rest', rm);
    }
  }

  /** A throwing request for `keys[j]` ends the loop right there: the result
      is that of the loop over `keys[..j + 1]` and it is aborted. */
  lemma {:induction false} ThrowStops(keys: seq<string>, j: nat, rm: string -> Reply<()>)
    requires j < |keys| && keys[j] != ParentKey && rm(keys[j]).Thrown?
    ensures RunRemovals(keys, rm) == RunRemovals(keys[..j + 1], rm)
    ensures RunRemovals(keys, rm).aborted
  {
    var done := keys[..j + 1];
    assert done[..j] == keys[..j];
    assert RunRemovals(done, rm).aborted;
    assert keys == done + keys[j + 1..];
    AbortIsFinal(done, keys[j + 1..], rm);
  }

  /** Deleting `a` and `b` where `a` fails and `b` succeeds sends both
      requests and reports one failure, the one for `a`. */
  lemma PartialFailureExample(a: string, b: string, m: string, rm: string -> Reply<()>)
    requires a != ParentKey && b != ParentKey
    requires rm(a) == Err(m) && rm(b) == Ok(())
    ensures RunRemovals([a, b], rm) == Outcome([Remove(a), Remove(b)], [Failure(m)], false)
  {
    assert [a, b][..1] == [a];
    assert [a][..0] == [];
    assert RunRemovals([], rm) == Outcome([], [], false);
    assert FailureToasts(rm(a)) == [Failure(m)];
    assert RunRemovals([a], rm) == Outcome([Remove(a)], [Failure(m)], false);
    assert FailureToasts(rm(b)) == [];
  }
}
