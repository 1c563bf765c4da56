/**
 `cnm actions watch`: subscribe, follow the stream, wait, subscribe again. Over
 every run, the resume token sent is the last one received since the stream last
 went live, and the wait follows the number of attempts since then.
 */
module ActionsWatch {
  import opened Options

  type Token = string

  /** A document of the stream. A fault is one that cannot be read or is not between the two parties. */
  datatype Doc = Response(token: Option<Token>) | Event(token: Option<Token>) | OtherType | Fault

  /** What a subscribe that does not end the command came to. */
  datatype Attempt = NoStream | Stream(docs: seq<Doc>)

  predicate WentLive(a: Attempt) {
    a.Stream? && a.docs != [] && a.docs[0].Response?
  }

  // ----- the token one stream leaves behind -----

  /** The documents before the first fault are the ones heard. */
  predicate Heard(docs: seq<Doc>, i: int) {
    0 <= i < |docs| && forall k :: 0 <= k <= i ==> !docs[k].Fault?
  }

  /** Document `i` brings a token: the response that opens the stream, or an event after it. */
  predicate Brings(docs: seq<Doc>, i: int) {
    Heard(docs, i) && (if i == 0 then docs[0].Response? else docs[i].Event?) && docs[i].token.Some?
  }

  /** The last token a live stream brought, or none at all. */
  ghost predicate LastBrought(docs: seq<Doc>, t: Option<Token>) {
    if t.None? then forall i :: !Brings(docs, i)
    else exists i :: Brings(docs, i) && docs[i].token == t && forall j :: j > i ==> !Brings(docs, j)
  }

  /** No document heard so far is a fault. */
  predicate AllHeard(docs: seq<Doc>) {
    forall k :: 0 <= k < |docs| ==> !docs[k].Fault?
  }

  lemma HeardMore(docs: seq<Doc>, d: Doc, i: int)
    requires AllHeard(docs)
    ensures Heard(docs + [d], i) <==> Heard(docs, i) || (i == |docs| && !d.Fault?)
    ensures i != |docs| ==> (Brings(docs + [d], i) <==> Brings(docs, i))
  {
    var all := docs + [d];
    assert forall k :: 0 <= k < |docs| ==> all[k] == docs[k];
    assert 0 <= i < |docs| ==> Heard(all, i) && Heard(docs, i);
    assert all[|docs|] == d;
  }

  /** The opening response sets the token to what it carries, be it none. */
  lemma ResponseSets(t: Option<Token>, u: Option<Token>)
    ensures WentLive(Stream([Response(t)])) && (LastBrought([Response(t)], u) <==> u == t)
  {
    var docs := [Response(t)];
    assert t.Some? ==> Brings(docs, 0);
    assert forall i :: i != 0 ==> !Brings(docs, i);
  }

  /** A later event sets it if it carries one and keeps it if not; any other document keeps it. */
  lemma NextDocument(docs: seq<Doc>, d: Doc, t: Option<Token>)
    requires WentLive(Stream(docs)) && AllHeard(docs)
    ensures WentLive(Stream(docs + [d]))
    ensures d.Event? && d.token.Some? ==> (LastBrought(docs + [d], t) <==> t == d.token)
    ensures !(d.Event? && d.token.Some?) ==> (LastBrought(docs + [d], t) <==> LastBrought(docs, t))
  {
    var n := |docs|;
    assert (docs + [d])[n] == d;
    forall i
      ensures i != n ==> (Brings(docs + [d], i) <==> Brings(docs, i))
    {
      HeardMore(docs, d, i);
    }
    HeardMore(docs, d, n);
    assert Brings(docs + [d], n) <==> d.Event? && d.token.Some?;
    forall i | i != n && Brings(docs, i)
      ensures 0 <= i < n && (docs + [d])[i] == docs[i]
    {
    }
  }

  /** Nothing after a fault counts. */
  lemma FaultEnds(docs: seq<Doc>, more: seq<Doc>, t: Option<Token>)
    requires AllHeard(docs)
    ensures LastBrought(docs + [Fault] + more, t) <==> LastBrought(docs, t)
  {
    var all := docs + [Fault] + more;
    var n := |docs|;
    assert all[n] == Fault && forall i :: 0 <= i < n ==> all[i] == docs[i];
    forall i
      ensures Brings(all, i) <==> Brings(docs, i)
    {
    }
  }

  /** A stream is live exactly when its first document is the response. */
  lemma LiveByResponse(docs: seq<Doc>)
    ensures WentLive(Stream(docs)) <==> exists t, rest :: docs == [Response(t)] + rest
    ensures !WentLive(NoStream)
  {
    if WentLive(Stream(docs)) { assert docs == [Response(docs[0].token)] + docs[1..]; }
  }

  /** Up to document `n`, all heard: what `since` holds. */
  ghost predicate BroughtBefore(docs: seq<Doc>, n: int, t: Option<Token>) {
    if t.None? then forall i :: i < n ==> !Brings(docs, i)
    else exists i :: i < n && Brings(docs, i) && docs[i].token == t && forall j :: i < j < n ==> !Brings(docs, j)
  }

  /** `once`, from the first document on. */
  method Once(since: Option<Token>, a: Attempt) returns (live: bool, after: Option<Token>)
    ensures live <==> WentLive(a)
    ensures live ==> LastBrought(a.docs, after)
    ensures !live ==> after == since
  {
    live, after := false, since;
    if a.NoStream? { return; }
    var docs := a.docs;
    for n := 0 to |docs|
      invariant live <==> n > 0
      invariant live ==> WentLive(a) && Heard(docs, n - 1) && BroughtBefore(docs, n, after)
      invariant !live ==> after == since
    {
      if docs[n].Fault? {
        assert forall j :: j >= n ==> !Heard(docs, j);
        return;
      }
      if !live {
        if !docs[n].Response? { return; }
        live := true;
        after := docs[n].token;
      } else if docs[n].Event? {
        after := if docs[n].token.Some? then docs[n].token else after;
      }
      assert Heard(docs, n);
      if Brings(docs, n) { assert after == docs[n].token; }
    }
  }

  // ----- the run -----

  const BACKOFF_MAX := 60_000
  const MAX_ATTEMPT := 16

  function Power(n: nat): (p: nat)
    ensures p >= 1
  {
    if n == 0 then 1 else 2 * Power(n - 1)
  }

  /** The longest wait at a count of attempts, in milliseconds. */
  function Wait(attempt: nat): nat {
    if 1000 * Power(attempt) < BACKOFF_MAX then 1000 * Power(attempt) else BACKOFF_MAX
  }

  /** The first wait is of a second, and each is double the one before until the cap. */
  lemma WaitDoubles(k: nat)
    ensures Wait(0) == 1000
    ensures Wait(k + 1) == if 2 * Wait(k) < 60_000 then 2 * Wait(k) else 60_000
  {
  }

  /** In milliseconds, the least and the greatest wait after so many attempts without a live stream. */
  predicate WaitFits(passed: nat, wait: nat) {
    if passed == 0 then 500 <= wait <= 1_000
    else if passed == 1 then 1_000 <= wait <= 2_000
    else if passed == 2 then 2_000 <= wait <= 4_000
    else if passed == 3 then 4_000 <= wait <= 8_000
    else if passed == 4 then 8_000 <= wait <= 16_000
    else if passed == 5 then 16_000 <= wait <= 32_000
    else 30_000 <= wait <= 60_000
  }

  lemma {:induction false} WaitStaysCapped(k: nat)
    requires k >= 6
    ensures Wait(k) == 60_000
  {
    if k == 6 {
      WaitDoubles(0);
      WaitDoubles(1);
      WaitDoubles(2);
      WaitDoubles(3);
      WaitDoubles(4);
      WaitDoubles(5);
    } else {
      WaitStaysCapped(k - 1);
      WaitDoubles(k - 1);
    }
  }

  lemma WaitInNumbers(passed: nat, count: nat, wait: nat)
    requires count == (if passed < MAX_ATTEMPT then passed else MAX_ATTEMPT)
    requires Wait(count) / 2 <= wait <= Wait(count)
    ensures WaitFits(passed, wait)
  {
    WaitDoubles(0);
    WaitDoubles(1);
    WaitDoubles(2);
    WaitDoubles(3);
    WaitDoubles(4);
    if count >= 6 { WaitStaysCapped(count); }
  }

  /** Attempt `k` is the latest before `n` that went live. */
  ghost predicate LatestLive(run: seq<Attempt>, n: int, k: int) {
    0 <= k < n <= |run| && WentLive(run[k]) && forall j :: k < j < n ==> !WentLive(run[j])
  }

  ghost predicate NeverLive(run: seq<Attempt>, n: int) {
    n <= |run| && forall j :: 0 <= j < n ==> !WentLive(run[j])
  }

  /** What the subscribe after `n` attempts sends. */
  ghost predicate Sends(run: seq<Attempt>, n: int, t: Option<Token>) {
    || (NeverLive(run, n) && t.None?)
    || exists k :: LatestLive(run, n, k) && LastBrought(run[k].docs, t)
  }

  /** The token sent, attempt by attempt: none at first, replaced by what a live stream leaves, kept by any other. */
  lemma SendsRecurs(run: seq<Attempt>, n: nat, t: Option<Token>)
    requires n < |run|
    ensures Sends(run, 0, t) <==> t.None?
    ensures Sends(run, n + 1, t) <==> if WentLive(run[n]) then LastBrought(run[n].docs, t) else Sends(run, n, t)
  {
    var m := n + 1;
    if WentLive(run[n]) {
      assert LatestLive(run, m, n);
      assert forall k :: LatestLive(run, m, k) ==> k == n;
    } else {
      assert forall k :: LatestLive(run, m, k) <==> LatestLive(run, n, k);
    }
  }

  /** How many attempts have passed since the latest that went live, or since the first. */
  function Passed(run: seq<Attempt>, n: nat): nat
    requires n < |run|
  {
    if n == 0 || WentLive(run[n]) then 0 else 1 + Passed(run, n - 1)
  }

  /** Counted from the latest live attempt `k`, or from the first one; so it is 0 right after a live stream. */
  lemma {:induction false} PassedIsDistance(run: seq<Attempt>, n: nat, k: nat)
    requires n < |run|
    ensures LatestLive(run, n + 1, k) ==> Passed(run, n) == n - k
    ensures NeverLive(run, n + 1) ==> Passed(run, n) == n
    ensures Passed(run, n) == 0 <==> WentLive(run[n]) || n == 0
  {
    if n > 0 && !WentLive(run[n]) {
      PassedIsDistance(run, n - 1, k);
    }
  }

  /** The count of attempts a wait goes by. */
  function Count(run: seq<Attempt>, n: nat): nat
    requires n < |run|
  {
    if Passed(run, n) < MAX_ATTEMPT then Passed(run, n) else MAX_ATTEMPT
  }

  /** The clock's milliseconds within its second spread the waits. */
  function Jitter(millis: nat, wait: nat): (j: nat)
    ensures j <= wait / 2 && (millis <= wait / 2 ==> j == millis)
  {
    millis % (wait / 2 + 1)
  }

  /** How long to wait at a count: from half of what it allows to all of it. */
  method Spread(ghost passed: nat, count: nat, millis: nat) returns (wait: nat)
    requires count == (if passed < MAX_ATTEMPT then passed else MAX_ATTEMPT)
    ensures WaitFits(passed, wait)
  {
    var longest := Wait(count);
    wait := longest / 2 + Jitter(millis, longest);
    WaitInNumbers(passed, count, wait);
  }

  lemma LiveNow(run: seq<Attempt>, n: nat)
    requires n < |run|
    ensures WentLive(run[n]) ==> LatestLive(run, n + 1, n)
    ensures forall k :: !WentLive(run[n]) && LatestLive(run, n, k) ==> LatestLive(run, n + 1, k)
    ensures !WentLive(run[n]) && NeverLive(run, n) ==> NeverLive(run, n + 1)
  {
  }

  lemma NextSends(run: seq<Attempt>, n: nat, since: Option<Token>, live: bool, after: Option<Token>)
    requires n < |run| && Sends(run, n, since) && (live <==> WentLive(run[n]))
    requires if live then LastBrought(run[n].docs, after) else after == since
    ensures Sends(run, n + 1, after)
  {
    LiveNow(run, n);
    if live { assert LatestLive(run, n + 1, n); }
  }

  ghost predicate AllSent(run: seq<Attempt>, sent: seq<Option<Token>>) {
    |sent| <= |run| && forall n :: 0 <= n < |sent| ==> Sends(run, n, sent[n])
  }

  ghost predicate AllFit(run: seq<Attempt>, waits: seq<nat>) {
    |waits| <= |run| && forall n :: 0 <= n < |waits| ==> WaitFits(Passed(run, n), waits[n])
  }

  lemma SentMore(run: seq<Attempt>, sent: seq<Option<Token>>, since: Option<Token>)
    requires AllSent(run, sent) && |sent| < |run| && Sends(run, |sent|, since)
    ensures AllSent(run, sent + [since])
  {
  }

  lemma FitsMore(run: seq<Attempt>, waits: seq<nat>, wait: nat)
    requires AllFit(run, waits) && |waits| < |run| && WaitFits(Passed(run, |waits|), wait)
    ensures AllFit(run, waits + [wait])
  {
  }

  /** The count kept by the loop: raised after each attempt, set back by a live one. */
  function Kept(run: seq<Attempt>, n: nat): nat
    requires n <= |run|
  {
    if n == 0 then 0 else if Count(run, n - 1) < MAX_ATTEMPT then Count(run, n - 1) + 1 else MAX_ATTEMPT
  }

  lemma KeptIsCount(run: seq<Attempt>, n: nat)
    requires n < |run|
    ensures Count(run, n) == if WentLive(run[n]) then 0 else Kept(run, n)
  {
  }

  /**
   `watch` over the attempts of a run: the token each subscribe sends, and the
   wait after it, by how many attempts have passed without a live stream.
   */
  method Watch(run: seq<Attempt>, clock: seq<nat>) returns (sent: seq<Option<Token>>, waits: seq<nat>)
    requires |clock| == |run|
    ensures |sent| == |run| && |waits| == |run|
    ensures forall n :: 0 <= n < |run| ==> Sends(run, n, sent[n])
    ensures forall n :: 0 <= n < |run| ==> WaitFits(Passed(run, n), waits[n])
  {
    sent, waits := [], [];
    var since: Option<Token> := None;
    var attempt := 0;
    for n := 0 to |run|
      invariant |sent| == n && |waits| == n && Sends(run, n, since) && attempt == Kept(run, n)
      invariant AllSent(run, sent) && AllFit(run, waits)
    {
      SentMore(run, sent, since);
      sent := sent + [since];
      var live, after := Once(since, run[n]);
      NextSends(run, n, since, live, after);
      since := after;
      if live { attempt := 0; }
      KeptIsCount(run, n);
      var wait := Spread(Passed(run, n), attempt, clock[n]);
      FitsMore(run, waits, wait);
      waits := waits + [wait];
      attempt := if attempt + 1 < MAX_ATTEMPT then attempt + 1 else MAX_ATTEMPT;
    }
  }
}
