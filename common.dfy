/** Values shared by every part of the assignment engine: optional and
    fallible results, participant names, the errors the handlers raise,
    and a few facts about sequences without repeats. */
module Common {

  /** A JavaScript value that may be `undefined`. */
  datatype Option<+T> = None | Some(value: T)

  /** A computation that either returns a value or throws. */
  datatype Result<+T, +E> = Ok(value: T) | Err(error: E)

  /** A participant name as it appears in participants.json and in the submissions. */
  type Name = string

  /** A (giver, receiver) pair as pushed onto `lockedPairs` or `assignments`.
      The receiver is `None` when the matcher read past the end of a shorter
      receiver pool (JavaScript `undefined`). */
  datatype Pair = Pair(giver: Name, receiver: Option<Name>)

  /** The errors the three handlers throw. */
  datatype Error =
    | MissingField(line: nat, column: nat)  // `currentline[j].replace` on undefined
    | Conflict                              // a receiver locked twice
    | NoValidAssignment                     // 100 attempts without success
    | InvalidPayload                        // send-emails: no `assignments` array

  /** The message each error carries into the handler's 500 response. */
  function Message(e: Error): (m: string)
    ensures |m| > 0
  {
    match e
    case MissingField(_, _) => "Cannot read properties of undefined (reading 'replace')"
    case Conflict => "Conflict: More than one person has purchased a gift for the same receiver. Manual intervention is required."
    case NoValidAssignment => "Failed to find a valid assignment without self-pairing after 100 attempts."
    case InvalidPayload => "Invalid or missing assignments payload."
  }

  /** A JavaScript string that is neither `undefined` nor empty. */
  predicate Truthy(o: Option<string>) {
    o.Some? && o.value != ""
  }

  /** Every value occurs at most once. */
  predicate Distinct<T(==)>(s: seq<T>) {
    forall i, j :: 0 <= i < j < |s| ==> s[i] != s[j]
  }

  /** The givers of a list of pairs, in order. */
  function Givers(ps: seq<Pair>): (r: seq<Name>)
    ensures |r| == |ps| && forall k :: 0 <= k < |ps| ==> r[k] == ps[k].giver
  {
    seq(|ps|, k requires 0 <= k < |ps| => ps[k].giver)
  }

  /** The receivers of a list of pairs, in order. */
  function Receivers(ps: seq<Pair>): (r: seq<Option<Name>>)
    ensures |r| == |ps| && forall k :: 0 <= k < |ps| ==> r[k] == ps[k].receiver
  {
    seq(|ps|, k requires 0 <= k < |ps| => ps[k].receiver)
  }

  /** Names wrapped as defined receivers. */
  function Defined(s: seq<Name>): (r: seq<Option<Name>>)
    ensures |r| == |s| && forall k :: 0 <= k < |s| ==> r[k] == Some(s[k])
  {
    seq(|s|, k requires 0 <= k < |s| => Some(s[k]))
  }

  /** A sequence has no repeats exactly when no value occurs twice in its multiset. */
  lemma {:induction false} DistinctMultiplicity<T>(s: seq<T>)
    ensures Distinct(s) <==> forall x :: multiset(s)[x] <= 1
  {
    if |s| == 0 {
    } else {
      var t := s[..|s| - 1];
      var y := s[|s| - 1];
      assert s == t + [y];
      DistinctMultiplicity(t);
      if Distinct(s) {
        assert Distinct(t);
        forall i | 0 <= i < |t| ensures t[i] != y {
          assert t[i] == s[i];
        }
        forall x ensures multiset(s)[x] <= 1 {
          assert multiset(s)[x] == multiset(t)[x] + multiset([y])[x];
        }
      }
      if forall x :: multiset(s)[x] <= 1 {
        forall x ensures multiset(t)[x] <= 1 {
          assert multiset(s)[x] == multiset(t)[x] + multiset([y])[x];
        }
        assert multiset(t)[y] == 0 by {
          assert multiset(s)[y] == multiset(t)[y] + 1;
        }
        forall i, j | 0 <= i < j < |s| ensures s[i] != s[j] {
          if j == |s| - 1 {
            assert s[i] in t by { assert s[i] == t[i]; }
          } else {
            assert s[i] == t[i] && s[j] == t[j];
          }
        }
      }
    }
  }

  /** Rearranging a sequence keeps it free of repeats. */
  lemma PermutationKeepsDistinct<T>(s: seq<T>, t: seq<T>)
    requires multiset(s) == multiset(t) && Distinct(s)
    ensures Distinct(t)
  {
    DistinctMultiplicity(s);
    DistinctMultiplicity(t);
  }

  /** Two repeat-free sequences with no value in common concatenate to a repeat-free one. */
  lemma DistinctAppend<T>(s: seq<T>, t: seq<T>)
    requires Distinct(s) && Distinct(t)
    requires forall x :: x in s ==> x !in t
    ensures Distinct(s + t)
  {
    forall i, j | 0 <= i < j < |s + t| ensures (s + t)[i] != (s + t)[j] {
      if j < |s| {
        assert (s + t)[i] == s[i] && (s + t)[j] == s[j];
      } else if i >= |s| {
        assert (s + t)[i] == t[i - |s|] && (s + t)[j] == t[j - |s|];
      } else {
        assert (s + t)[i] == s[i] && (s + t)[j] == t[j - |s|];
        assert s[i] in s;
      }
    }
  }

  /** A repeat-free sequence has as many elements as the set of its elements. */
  lemma {:induction false} DistinctCardinality<T>(s: seq<T>)
    requires Distinct(s)
    ensures |set x | x in s| == |s|
  {
    if |s| > 0 {
      var t := s[..|s| - 1];
      var y := s[|s| - 1];
      assert s == t + [y];
      assert Distinct(t);
      DistinctCardinality(t);
      forall i | 0 <= i < |t| ensures t[i] != y {
        assert t[i] == s[i];
      }
      assert (set x | x in s) == (set x | x in t) + {y};
    }
  }

  /** A sequence never has more distinct values than elements. */
  lemma {:induction false} CardinalityBound<T>(s: seq<T>)
    ensures |set x | x in s| <= |s|
  {
    if |s| > 0 {
      var t := s[..|s| - 1];
      assert s == t + [s[|s| - 1]];
      CardinalityBound(t);
      assert (set x | x in s) == (set x | x in t) + {s[|s| - 1]};
    }
  }

  /** A sequence with a repeat has fewer distinct values than elements. */
  lemma {:induction false} RepeatCardinality<T>(s: seq<T>)
    requires !Distinct(s)
    ensures |set x | x in s| < |s|
  {
    var t := s[..|s| - 1];
    var y := s[|s| - 1];
    assert s == t + [y];
    assert (set x | x in s) == (set x | x in t) + {y};
    if y in t {
      CardinalityBound(t);
      assert (set x | x in s) == (set x | x in t);
    } else {
      assert !Distinct(t) by {
        var i, j :| 0 <= i < j < |s| && s[i] == s[j];
        assert s[i] == t[i] && t[i] in t;
        assert j < |s| - 1;
        assert t[i] == t[j];
      }
      RepeatCardinality(t);
    }
  }
}
