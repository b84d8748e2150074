/** The in-memory link repository of internal/adapters/repository/memory.go: a map from
    code to link, and a bounded queue of visit increments that a background worker
    applies in FIFO order. The worker goroutine and the read/write lock are not
    modelled; each iteration of the worker's loop is the explicit method WorkerStep. */
module Repository {
  import opened Wrappers
  import opened Domain

  /** The capacity of the visit channel. */
  const QueueCapacity: nat := 100

  /** `after` keeps every link of `before` with the same code, URL and creation time,
      and with at least as many visits: links are never deleted or rewritten. */
  ghost predicate Grows(before: map<string, Link>, after: map<string, Link>)
  {
    forall k :: k in before ==>
      k in after &&
      after[k].id == before[k].id &&
      after[k].original == before[k].original &&
      after[k].shortened == before[k].shortened &&
      after[k].createdAt == before[k].createdAt &&
      after[k].visits >= before[k].visits
  }

  lemma GrowsReflexive(a: map<string, Link>)
    ensures Grows(a, a)
  {
  }

  /** Raising one visit count keeps every link otherwise as it was. */
  lemma BumpedGrows(links: map<string, Link>, code: string)
    requires code in links
    ensures Grows(links, Bumped(links, code))
  {
  }

  /** `links` with the visit count of the link under `code` raised by one. */
  function Bumped(links: map<string, Link>, code: string): map<string, Link>
    requires code in links
  {
    links[code := links[code].(visits := links[code].visits + 1)]
  }

  /** The repository's invariant, on its state as values: the queue respects its
      capacity; every accepted increment has been applied, dropped or is still queued;
      links are keyed by their ID; and each link's visits are its visits when saved
      plus the increments applied to it. */
  ghost predicate Accounts(links: map<string, Link>, queue: seq<string>, accepted: multiset<string>,
                           applied: multiset<string>, dropped: multiset<string>, baseline: map<string, nat>)
  {
    |queue| <= QueueCapacity &&
    accepted == applied + dropped + multiset(queue) &&
    links.Keys == baseline.Keys &&
    (forall k :: k in applied ==> k in links) &&
    (forall k :: k in links ==> links[k].id == k && links[k].visits == baseline[k] + applied[k])
  }

  /** Taking the head of the queue and applying or dropping it keeps the accounts. */
  lemma DequeueKeepsAccounts(links: map<string, Link>, queue: seq<string>, accepted: multiset<string>,
                             applied: multiset<string>, dropped: multiset<string>, baseline: map<string, nat>)
    requires queue != [] && Accounts(links, queue, accepted, applied, dropped, baseline)
    ensures queue[0] in links ==>
      Accounts(Bumped(links, queue[0]), queue[1..], accepted, applied + multiset{queue[0]}, dropped, baseline)
    ensures queue[0] !in links ==>
      Accounts(links, queue[1..], accepted, applied, dropped + multiset{queue[0]}, baseline)
  {
    var code := queue[0];
    assert queue == [code] + queue[1..];
    assert multiset(queue) == multiset{code} + multiset(queue[1..]);
    if code in links {
      var after, applied' := Bumped(links, code), applied + multiset{code};
      forall k | k in after
        ensures after[k].visits == baseline[k] + applied'[k]
      {
        if k != code {
          assert after[k] == links[k];
        }
      }
    }
  }

  class MemoryRepository {
    /** The stored links, by code. */
    var links: map<string, Link>
    /** The pending visit increments, oldest first (the buffered channel). */
    var visitQueue: seq<string>

    // Accounting of visit increments, for the specification only.
    /** Every code whose increment was ever accepted into the queue. */
    ghost var accepted: multiset<string>
    /** The dequeued codes whose link existed, so that its counter was raised. */
    ghost var applied: multiset<string>
    /** The dequeued codes that had no link and were dropped. */
    ghost var dropped: multiset<string>
    /** The visit count each link had when it was saved. */
    ghost var baseline: map<string, nat>

    ghost predicate Valid()
      reads this
    {
      Accounts(links, visitQueue, accepted, applied, dropped, baseline)
    }

    /** `NewMemoryRepository`: no links and an empty queue. */
    constructor ()
      ensures Valid()
      ensures links == map[] && visitQueue == []
      ensures accepted == multiset{} && applied == multiset{} && dropped == multiset{}
    {
      links := map[];
      visitQueue := [];
      accepted, applied, dropped := multiset{}, multiset{}, multiset{};
      baseline := map[];
    }

    /** `Save`: stores `link` under its ID unless that ID is taken, in which case the
        first record is kept and the save fails. */
    method Save(link: Link) returns (result: Outcome)
      requires Valid()
      modifies this`links, this`baseline
      ensures Valid()
      ensures result == if link.id in old(links) then Fail(DuplicateKey) else Pass
      ensures result.Pass? ==> links == old(links)[link.id := link]
      ensures result.Fail? ==> links == old(links)
      ensures Grows(old(links), links)
    {
      if link.id in links {
        return Fail(DuplicateKey);
      }
      links := links[link.id := link];
      baseline := baseline[link.id := link.visits];
      result := Pass;
    }

    /** `GetByShortCode`: the link stored under `code`, or NotFound. */
    method GetByShortCode(code: string) returns (r: Result<Link>)
      requires Valid()
      ensures r.Ok? <==> code in links
      ensures r.Ok? ==> r.value == links[code] && r.value.id == code
      ensures r.Err? ==> r.error == NotFound
    {
      if code !in links {
        return Err(NotFound);
      }
      r := Ok(links[code]);
    }

    /** `IncrementVisits`: a non-blocking send of `code` on the visit queue; it fails
        with QueueFull, and changes nothing, when the queue already holds 100 codes. */
    method IncrementVisits(code: string) returns (result: Outcome)
      requires Valid()
      modifies this`visitQueue, this`accepted
      ensures Valid()
      ensures result == if |old(visitQueue)| < QueueCapacity then Pass else Fail(QueueFull)
      ensures result.Pass? ==> visitQueue == old(visitQueue) + [code] && accepted == old(accepted) + multiset{code}
      ensures result.Fail? ==> visitQueue == old(visitQueue) && accepted == old(accepted)
    {
      if |visitQueue| < QueueCapacity {
        visitQueue := visitQueue + [code];
        accepted := accepted + multiset{code};
        result := Pass;
      } else {
        result := Fail(QueueFull);
      }
    }

    /** One iteration of `backgroundVisitWorker`: takes the oldest code off the queue and
        raises its link's visit count by one, or drops the code when it has no link.
        With an empty queue the worker would wait; here nothing happens and None is
        returned. */
    method WorkerStep() returns (taken: Option<string>)
      requires Valid()
      modifies this`links, this`visitQueue, this`applied, this`dropped
      ensures Valid()
      ensures taken == if old(visitQueue) == [] then None else Some(old(visitQueue)[0])
      ensures taken.None? ==> links == old(links) && visitQueue == old(visitQueue)
      ensures taken.Some? ==> visitQueue == old(visitQueue)[1..]
      ensures taken.Some? && taken.value in old(links) ==> links == Bumped(old(links), taken.value)
      ensures taken.Some? && taken.value !in old(links) ==> links == old(links)
      ensures Grows(old(links), links)
    {
      if visitQueue == [] {
        GrowsReflexive(links);
        return None;
      }
      var code := visitQueue[0];
      DequeueKeepsAccounts(links, visitQueue, accepted, applied, dropped, baseline);
      if code in links {
        BumpedGrows(links, code);
        links, visitQueue, applied := Bumped(links, code), visitQueue[1..], applied + multiset{code};
      } else {
        GrowsReflexive(links);
        visitQueue, dropped := visitQueue[1..], dropped + multiset{code};
      }
      taken := Some(code);
    }

    /** `backgroundVisitWorker` run until the queue is empty: every stored link gains
        exactly as many visits as the queue held entries for its code. */
    method Drain()
      requires Valid()
      modifies this`links, this`visitQueue, this`applied, this`dropped
      ensures Valid()
      ensures visitQueue == []
      ensures CountedIn(old(links), links, old(visitQueue))
      ensures Grows(old(links), links)
    {
      ghost var start, pending := links, visitQueue;
      ghost var n := 0;
      while visitQueue != []
        invariant Valid()
        invariant 0 <= n <= |pending| && visitQueue == pending[n..]
        invariant CountedIn(start, links, pending[..n])
        decreases |visitQueue|
      {
        ghost var before := links;
        var taken := WorkerStep();
        assert taken.value == pending[n];
        CountedStep(start, before, links, pending[..n], pending[n]);
        PrefixStep(pending, n);
        n := n + 1;
      }
      assert pending[..n] == pending;
      CountedGrows(start, links, pending);
    }
  }

  lemma PrefixStep(s: seq<string>, n: nat)
    requires n < |s|
    ensures s[..n + 1] == s[..n] + [s[n]]
  {
  }

  /** `now` has the keys of `start`, and each of its links is the same link of `start`
      with one more visit for every occurrence of its code in `codes`. */
  ghost predicate CountedIn(start: map<string, Link>, now: map<string, Link>, codes: seq<string>)
  {
    now.Keys == start.Keys &&
    forall k :: k in now ==> now[k] == start[k].(visits := start[k].visits + multiset(codes)[k])
  }

  lemma CountedGrows(start: map<string, Link>, now: map<string, Link>, codes: seq<string>)
    requires CountedIn(start, now, codes)
    ensures Grows(start, now)
  {
  }

  /** Applying or dropping one more code extends the count by that code. */
  lemma CountedStep(start: map<string, Link>, before: map<string, Link>, after: map<string, Link>,
                    codes: seq<string>, code: string)
    requires CountedIn(start, before, codes)
    requires code in before ==> after == Bumped(before, code)
    requires code !in before ==> after == before
    ensures CountedIn(start, after, codes + [code])
  {
    assert multiset(codes + [code]) == multiset(codes) + multiset{code};
  }

  /** Under the invariant, no link has gained more visits since it was saved than the
      number of increments ever accepted for its code. */
  lemma VisitsBoundedByAccepted(r: MemoryRepository, k: string)
    requires r.Valid() && k in r.links
    ensures r.links[k].visits <= r.baseline[k] + r.accepted[k]
  {
  }
}
