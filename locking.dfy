/** The locking phase shared by generate-assignments.js and run-draw.js:
    every submission declares up to two (receiver, gift-purchased) entries;
    each declaration with a non-empty receiver, the flag `'true'` and both
    names on the participant list becomes a locked pair. generate-assignments.js
    throws when a receiver is locked a second time (`checkConflict`); run-draw.js
    has no such check. The free pools are then the participant list filtered by
    the locked givers and by the locked receivers. */
module Locking {
  import opened Common
  import opened Csv

  /** The arguments of one `processAssignment(receiverName, giftPurchased)` call,
      with the submission's giver. */
  datatype Declaration = Declaration(giver: Option<string>, receiver: Option<string>, purchased: Option<string>)

  /** The two declarations of one submission, receiver 1 first. */
  function DeclarationsOf(sub: Record): seq<Declaration> {
    var giver := Field(sub, "submitter-name");
    [ Declaration(giver, Field(sub, "receiver-1-name"), Field(sub, "gift-purchased-1")),
      Declaration(giver, Field(sub, "receiver-2-name"), Field(sub, "gift-purchased-2")) ]
  }

  /** All declarations in submission order. */
  function Declarations(subs: seq<Record>): (r: seq<Declaration>)
    ensures |r| == 2 * |subs|
  {
    if |subs| == 0 then [] else Declarations(subs[..|subs| - 1]) + DeclarationsOf(subs[|subs| - 1])
  }

  /** `receiverName && giftPurchased === 'true'` and both names on the participant list. */
  predicate Lockable(participants: seq<Name>, d: Declaration) {
    Truthy(d.receiver) && d.purchased == Some("true")
    && d.giver.Some? && d.giver.value in participants && d.receiver.value in participants
  }

  /** `lockedPairs`, `lockedGivers` and `lockedReceivers`. */
  datatype LockState = LockState(pairs: seq<Pair>, givers: set<Name>, receivers: set<Name>)

  /** One `processAssignment` call. */
  function Process(participants: seq<Name>, st: LockState, d: Declaration, checkConflict: bool): Result<LockState, Error> {
    if !Lockable(participants, d) then Ok(st)
    else if checkConflict && d.receiver.value in st.receivers then Err(Conflict)
    else Ok(LockState(st.pairs + [Pair(d.giver.value, d.receiver)],
                      st.givers + {d.giver.value}, st.receivers + {d.receiver.value}))
  }

  /** The locking loop over the declarations `ds`. */
  function LockAll(participants: seq<Name>, ds: seq<Declaration>, checkConflict: bool): Result<LockState, Error> {
    if |ds| == 0 then Ok(LockState([], {}, {}))
    else
      match LockAll(participants, ds[..|ds| - 1], checkConflict)
      case Err(e) => Err(e)
      case Ok(st) => Process(participants, st, ds[|ds| - 1], checkConflict)
  }

  /** The pairs the lockable declarations stand for, in declaration order. */
  function Eligible(participants: seq<Name>, ds: seq<Declaration>): (r: seq<Pair>)
    ensures forall p :: p in r ==> p.giver in participants && p.receiver.Some? && p.receiver.value in participants
  {
    if |ds| == 0 then []
    else
      var d := ds[|ds| - 1];
      Eligible(participants, ds[..|ds| - 1])
        + (if Lockable(participants, d) then [Pair(d.giver.value, d.receiver)] else [])
  }

  /** The names appearing as givers. */
  function GiverSet(ps: seq<Pair>): set<Name> {
    set p | p in ps :: p.giver
  }

  /** The names appearing as defined receivers. */
  function ReceiverSet(ps: seq<Pair>): set<Name> {
    set p | p in ps && p.receiver.Some? :: p.receiver.value
  }

  /** The locking loop, submission by submission, as generate-assignments.js and
      run-draw.js run it. */
  method Lock(participants: seq<Name>, submissions: seq<Record>, checkConflict: bool)
    returns (r: Result<LockState, Error>)
    ensures r == LockAll(participants, Declarations(submissions), checkConflict)
  {
    ghost var ds := Declarations(submissions);
    var lockedPairs: seq<Pair> := [];
    var lockedGivers: set<Name> := {};
    var lockedReceivers: set<Name> := {};
    for k := 0 to |submissions|
      invariant LockAll(participants, ds[..2 * k], checkConflict)
                == Ok(LockState(lockedPairs, lockedGivers, lockedReceivers))
    {
      var sub := submissions[k];
      var giver := Field(sub, "submitter-name");
      var calls := DeclarationsOf(sub);
      DeclarationsAt(submissions, k);
      // processAssignment for receiver 1, then for receiver 2
      for slot := 0 to 2
        invariant LockAll(participants, ds[..2 * k + slot], checkConflict)
                  == Ok(LockState(lockedPairs, lockedGivers, lockedReceivers))
      {
        var receiverName := calls[slot].receiver;
        var giftPurchased := calls[slot].purchased;
        assert ds[..2 * k + slot + 1][..2 * k + slot] == ds[..2 * k + slot];
        if Truthy(receiverName) && giftPurchased == Some("true") {
          if giver.Some? && giver.value in participants && receiverName.value in participants {
            if checkConflict && receiverName.value in lockedReceivers {
              r := Err(Conflict);
              ErrorPersists(participants, ds, 2 * k + slot + 1, checkConflict);
              assert ds[..|ds|] == ds;
              return;
            }
            lockedPairs := lockedPairs + [Pair(giver.value, receiverName)];
            lockedGivers := lockedGivers + {giver.value};
            lockedReceivers := lockedReceivers + {receiverName.value};
          }
        }
      }
    }
    assert ds[..2 * |submissions|] == ds;
    r := Ok(LockState(lockedPairs, lockedGivers, lockedReceivers));
  }

  /** The declarations of submission `k` sit at positions `2k` and `2k + 1`. */
  lemma {:induction false} DeclarationsAt(subs: seq<Record>, k: nat)
    requires k < |subs|
    ensures Declarations(subs)[2 * k] == DeclarationsOf(subs[k])[0]
    ensures Declarations(subs)[2 * k + 1] == DeclarationsOf(subs[k])[1]
    decreases |subs|
  {
    if k < |subs| - 1 {
      DeclarationsAt(subs[..|subs| - 1], k);
      assert subs[..|subs| - 1][k] == subs[k];
    }
  }

  /** After a conflict the loop is left: no later declaration changes the outcome. */
  lemma {:induction false} ErrorPersists(participants: seq<Name>, ds: seq<Declaration>, m: nat, checkConflict: bool)
    requires m <= |ds|
    requires LockAll(participants, ds[..m], checkConflict).Err?
    ensures LockAll(participants, ds, checkConflict) == LockAll(participants, ds[..m], checkConflict)
    decreases |ds| - m
  {
    if m < |ds| {
      assert ds[..m + 1][..m] == ds[..m];
      ErrorPersists(participants, ds, m + 1, checkConflict);
    } else {
      assert ds[..m] == ds;
    }
  }

  /** The locking phase, stated without the loop: the locked pairs are the eligible
      declarations in order, the two sets hold their givers and receivers; with the
      conflict check on, it throws exactly when two eligible declarations name the
      same receiver (even with the same giver). */
  lemma {:induction false} LockAllCharacterized(participants: seq<Name>, ds: seq<Declaration>, checkConflict: bool)
    ensures var e := Eligible(participants, ds);
      LockAll(participants, ds, checkConflict)
      == if checkConflict && !Distinct(Receivers(e)) then Err(Conflict)
         else Ok(LockState(e, GiverSet(e), ReceiverSet(e)))
  {
    if |ds| > 0 {
      var init := ds[..|ds| - 1];
      var d := ds[|ds| - 1];
      LockAllCharacterized(participants, init, checkConflict);
      var e0 := Eligible(participants, init);
      var e := Eligible(participants, ds);
      if !Lockable(participants, d) {
        assert e == e0;
        assert LockAll(participants, ds, checkConflict) == LockAll(participants, init, checkConflict);
      } else {
        var p := Pair(d.giver.value, d.receiver);
        assert e == e0 + [p];
        assert Receivers(e) == Receivers(e0) + [p.receiver];
        if checkConflict && !Distinct(Receivers(e0)) {
          assert !Distinct(Receivers(e)) by {
            var i, j :| 0 <= i < j < |Receivers(e0)| && Receivers(e0)[i] == Receivers(e0)[j];
            assert Receivers(e)[i] == Receivers(e)[j];
          }
        } else {
          var st := LockState(e0, GiverSet(e0), ReceiverSet(e0));
          assert LockAll(participants, ds, checkConflict) == Process(participants, st, d, checkConflict);
          assert d.receiver.value in ReceiverSet(e0) <==> p.receiver in Receivers(e0) by {
            if d.receiver.value in ReceiverSet(e0) {
              var q :| q in e0 && q.receiver.Some? && q.receiver.value == d.receiver.value;
              var i :| 0 <= i < |e0| && e0[i] == q;
              assert Receivers(e0)[i] == p.receiver;
            }
            if p.receiver in Receivers(e0) {
              var i :| 0 <= i < |e0| && Receivers(e0)[i] == p.receiver;
              assert e0[i] in e0;
            }
          }
          if checkConflict && p.receiver in Receivers(e0) {
            assert !Distinct(Receivers(e)) by {
              var i :| 0 <= i < |Receivers(e0)| && Receivers(e0)[i] == p.receiver;
              assert Receivers(e)[i] == Receivers(e)[|e| - 1];
            }
          } else {
            assert GiverSet(e) == GiverSet(e0) + {p.giver};
            assert ReceiverSet(e) == ReceiverSet(e0) + {d.receiver.value};
            if checkConflict {
              assert Distinct(Receivers(e));
            }
            assert LockAll(participants, ds, checkConflict) == Ok(LockState(e, GiverSet(e), ReceiverSet(e)));
          }
        }
      }
    } else {
      assert GiverSet([]) == {} && ReceiverSet([]) == {};
    }
  }

  /** Without the conflict check (run-draw.js) locking never throws, and a receiver
      named in two eligible declarations is locked twice. */
  lemma LockingWithoutCheckNeverFails(participants: seq<Name>, ds: seq<Declaration>)
    ensures LockAll(participants, ds, false) == Ok(var e := Eligible(participants, ds); LockState(e, GiverSet(e), ReceiverSet(e)))
  {
    LockAllCharacterized(participants, ds, false);
  }

  /** A declaration is locked exactly when it is lockable: any other declaration is
      skipped without an error. */
  lemma {:induction false} EligibleMembers(participants: seq<Name>, ds: seq<Declaration>, p: Pair)
    ensures p in Eligible(participants, ds)
            <==> exists d :: d in ds && Lockable(participants, d) && p == Pair(d.giver.value, d.receiver)
  {
    if |ds| > 0 {
      var init := ds[..|ds| - 1];
      assert ds == init + [ds[|ds| - 1]];
      EligibleMembers(participants, init, p);
    }
  }

  /** `allParticipants.filter(p => !excluded.has(p))`. */
  function Without(participants: seq<Name>, excluded: set<Name>): seq<Name> {
    if |participants| == 0 then []
    else (if participants[0] in excluded then [] else [participants[0]]) + Without(participants[1..], excluded)
  }

  /** A name is in the filtered pool exactly when it is a participant outside `excluded`. */
  lemma {:induction false} WithoutMembers(participants: seq<Name>, excluded: set<Name>)
    ensures forall x :: x in Without(participants, excluded) <==> x in participants && x !in excluded
  {
    if |participants| > 0 {
      WithoutMembers(participants[1..], excluded);
      assert participants == [participants[0]] + participants[1..];
    }
  }

  /** Filtering keeps list order: it distributes over concatenation. */
  lemma {:induction false} WithoutAppend(a: seq<Name>, b: seq<Name>, excluded: set<Name>)
    ensures Without(a + b, excluded) == Without(a, excluded) + Without(b, excluded)
  {
    if |a| > 0 {
      var head := if a[0] in excluded then [] else [a[0]];
      assert (a + b)[0] == a[0];
      assert (a + b)[1..] == a[1..] + b;
      assert Without(a + b, excluded) == head + Without(a[1..] + b, excluded);
      WithoutAppend(a[1..], b, excluded);
      assert Without(a, excluded) == head + Without(a[1..], excluded);
    } else {
      assert a + b == b;
    }
  }

  /** Filtering a list without repeats gives a list without repeats. */
  lemma {:induction false} WithoutDistinct(participants: seq<Name>, excluded: set<Name>)
    requires Distinct(participants)
    ensures Distinct(Without(participants, excluded))
  {
    if |participants| > 0 {
      WithoutDistinct(participants[1..], excluded);
      WithoutMembers(participants[1..], excluded);
      var head := if participants[0] in excluded then [] else [participants[0]];
      forall x | x in head ensures x !in Without(participants[1..], excluded) {
        assert participants[0] !in participants[1..];
      }
      DistinctAppend(head, Without(participants[1..], excluded));
    }
  }

  /** Filtering a list without repeats by a set of its members removes exactly that many. */
  lemma {:induction false} WithoutLength(participants: seq<Name>, excluded: set<Name>)
    requires Distinct(participants)
    requires forall x :: x in excluded ==> x in participants
    ensures |Without(participants, excluded)| == |participants| - |excluded|
  {
    if |participants| > 0 {
      var x := participants[0];
      var rest := participants[1..];
      assert x !in rest;
      var excluded' := excluded - {x};
      WithoutLength(rest, excluded');
      assert Without(rest, excluded') == Without(rest, excluded) by {
        WithoutIgnoresAbsent(rest, excluded, x);
      }
    }
  }

  /** Excluding a name that is not on the list changes nothing. */
  lemma {:induction false} WithoutIgnoresAbsent(participants: seq<Name>, excluded: set<Name>, x: Name)
    requires x !in participants
    ensures Without(participants, excluded - {x}) == Without(participants, excluded)
  {
    if |participants| > 0 {
      WithoutIgnoresAbsent(participants[1..], excluded, x);
    }
  }

  /** The filtered pool is never longer than the participant list. */
  lemma {:induction false} WithoutShorter(participants: seq<Name>, excluded: set<Name>)
    ensures |Without(participants, excluded)| <= |participants|
  {
    if |participants| > 0 {
      WithoutShorter(participants[1..], excluded);
    }
  }

  /** Filtering removes every occurrence of an excluded name and keeps every other one. */
  lemma {:induction false} WithoutCount(participants: seq<Name>, excluded: set<Name>, x: Name)
    ensures multiset(Without(participants, excluded))[x] == if x in excluded then 0 else multiset(participants)[x]
  {
    if |participants| > 0 {
      WithoutCount(participants[1..], excluded, x);
      assert participants == [participants[0]] + participants[1..];
    }
  }
}
