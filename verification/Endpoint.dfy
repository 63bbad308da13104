/** RdmaEndpoint::drain: the polling loop that turns completions into per-request flags. */
module Endpoint {

  datatype Wc = Wc(wrId: nat, status: nat)

  const SUCCESS: nat := 0

  /** One ibv_poll_cq call: an error, nothing (with the deadline passed or not), or a
      non-empty run of completions. */
  datatype PollResult = PollError | Idle(expired: bool) | Reaped(wcs: seq<Wc>)

  /** The completions a run of polls hands over, in order. */
  function Completions(polls: seq<PollResult>): seq<Wc> {
    if polls == [] then []
    else Completions(polls[..|polls| - 1]) +
         (if polls[|polls| - 1].Reaped? then polls[|polls| - 1].wcs else [])
  }

  /** Some completion reports that request i succeeded. */
  predicate Reports(wcs: seq<Wc>, i: nat) {
    Wc(i, SUCCESS) in wcs
  }

  function Errors(wcs: seq<Wc>): nat {
    if wcs == [] then 0
    else Errors(wcs[..|wcs| - 1]) + (if wcs[|wcs| - 1].status == SUCCESS then 0 else 1)
  }

  function LastError(before: nat, wcs: seq<Wc>): nat {
    if wcs == [] then before
    else if wcs[|wcs| - 1].status != SUCCESS then wcs[|wcs| - 1].status
    else LastError(before, wcs[..|wcs| - 1])
  }

  class RdmaEndpoint {
    var wcErrors: nat
    var lastWcStatus: nat

    /** Handle the completions of one poll. */
    method Account(ok: array<bool>, wcs: seq<Wc>, ghost earlier: seq<Wc>, ghost before: seq<bool>, ghost errs: nat, ghost last: nat)
      requires |before| == ok.Length
      requires forall i | 0 <= i < ok.Length :: ok[i] <==> before[i] || Reports(earlier, i)
      requires wcErrors == errs + Errors(earlier) && lastWcStatus == LastError(last, earlier)
      modifies this, ok
      ensures forall i | 0 <= i < ok.Length :: ok[i] <==> before[i] || Reports(earlier + wcs, i)
      ensures wcErrors == errs + Errors(earlier + wcs) && lastWcStatus == LastError(last, earlier + wcs)
    {
      assert earlier + wcs[..0] == earlier;
      for k := 0 to |wcs|
        invariant forall i | 0 <= i < ok.Length :: ok[i] <==> before[i] || Reports(earlier + wcs[..k], i)
        invariant wcErrors == errs + Errors(earlier + wcs[..k])
        invariant lastWcStatus == LastError(last, earlier + wcs[..k])
      {
        ghost var sofar := earlier + wcs[..k];
        assert earlier + wcs[..k + 1] == sofar + [wcs[k]];
        assert (sofar + [wcs[k]])[..|sofar|] == sofar;
        if wcs[k].status == SUCCESS {
          if wcs[k].wrId < ok.Length {
            ok[wcs[k].wrId] := true;
          }
        } else {
          lastWcStatus := wcs[k].status;
          wcErrors := wcErrors + 1;
        }
      }
      assert wcs[..|wcs|] == wcs;
    }

    /** `polls` is what successive ibv_poll_cq calls return; running off its end is the
        deadline passing. Returns how many of them were used. A flag turns true exactly
        when a reaped completion reports that request's success; the result is true
        exactly when at least `count` completions were reaped. */
    method Drain(count: nat, ok: array<bool>, polls: seq<PollResult>) returns (drained: bool, used: nat)
      modifies this, ok
      ensures used <= |polls|
      ensures drained <==> |Completions(polls[..used])| >= count
      ensures used > 0 ==> |Completions(polls[..used - 1])| < count
      ensures forall i | 0 <= i < ok.Length :: ok[i] <==> old(ok[i]) || Reports(Completions(polls[..used]), i)
      ensures wcErrors == old(wcErrors) + Errors(Completions(polls[..used]))
      ensures lastWcStatus == LastError(old(lastWcStatus), Completions(polls[..used]))
    {
      used := 0;
      var seen := 0;
      ghost var before := ok[..];
      while seen < count
        invariant used <= |polls|
        invariant seen == |Completions(polls[..used])|
        invariant used > 0 ==> |Completions(polls[..used - 1])| < count
        invariant forall i | 0 <= i < ok.Length :: ok[i] <==> before[i] || Reports(Completions(polls[..used]), i)
        invariant wcErrors == old(wcErrors) + Errors(Completions(polls[..used]))
        invariant lastWcStatus == LastError(old(lastWcStatus), Completions(polls[..used]))
        decreases |polls| - used
      {
        if used == |polls| {
          return false, used;
        }
        var poll := polls[used];
        assert polls[..used + 1][..used] == polls[..used];
        used := used + 1;
        match poll {
          case PollError =>
            assert Completions(polls[..used]) == Completions(polls[..used - 1]);
            return false, used;
          case Idle(expired) =>
            assert Completions(polls[..used]) == Completions(polls[..used - 1]);
            if expired {
              return false, used;
            }
          case Reaped(wcs) =>
            Account(ok, wcs, Completions(polls[..used - 1]), before, old(wcErrors), old(lastWcStatus));
            seen := seen + |wcs|;
        }
      }
      drained := true;
    }
  }
}
