/** What a Solidifier keeps over every run of events: its residue class, the cones it collects, and its sync rows. */
module SolidifierProofs {
  import opened Types
  import opened SolidifierSpec

  // ------------------------------------------------------------------------------------------------------------
  // Routing
  // ------------------------------------------------------------------------------------------------------------

  /** The milestone an event is about. */
  function Subject(e: Event): nat {
    match e
    case Message(m) => m.refMs
    case Milestone(index, _) => index
    case CloseMessage(_, index) => index
    case Solidify(index) => index
    case SolidifyFailure(index) => index
    case Persisted(_, index) => index
    case Analyzed(index) => index
    case Synced(index) => index
  }

  /** `x` belongs to the residue class of the Solidifier. */
  predicate Mine(s: State, x: nat)
    requires s.count > 0
  {
    x % s.count == s.id
  }

  /** Entries are kept under their index, belong to the residue class and are older than `expected`; nothing is both
      unreachable and in progress. */
  ghost predicate Indexed(s: State) {
    && s.count > 0 && s.id < s.count
    && (forall k :: k in s.entries ==> s.entries[k].index == k && Mine(s, k) && k < s.expected)
    && (forall k :: k in s.unreachable ==> k !in s.entries && k < s.expected)
    && match s.first
       case None => s.expected == 0
       case Some(f) => s.gapStart <= f < s.expected && Mine(s, f) && Mine(s, s.expected)
  }

  /** Only the zeroth multiple of `count` lies strictly between -count and count. */
  lemma SmallMultiple(q: int, count: int)
    requires count > 0
    ensures q >= 1 ==> q * count >= count
    ensures q <= -1 ==> q * count <= -count
  {
    if q >= 1 {
      assert (q - 1) * count >= 0;
    } else if q <= -1 {
      assert (-1 - q) * count >= 0;
    }
  }

  lemma SameClass(a: nat, b: nat, count: nat)
    requires count > 0 && a % count == b % count
    ensures b - a == (b / count - a / count) * count
  {
    var q, p := a / count, b / count;
    assert a == q * count + a % count;
    assert b == p * count + b % count;
    assert (p - q) * count == p * count - q * count;
  }

  /** Between two neighbours of a residue class nothing belongs to it. */
  lemma NextInClass(n: nat, x: nat, count: nat)
    requires count > 0 && n < x < n + count
    ensures x % count != n % count
  {
    if x % count == n % count {
      SameClass(n, x, count);
      SmallMultiple(x / count - n / count, count);
    }
  }

  lemma ClassGoesOn(n: nat, count: nat)
    requires count > 0
    ensures (n + count) % count == n % count
  {
    var q, r, p, t := n / count, n % count, (n + count) / count, (n + count) % count;
    assert n == q * count + r;
    assert n + count == p * count + t;
    assert (p - q - 1) * count == p * count - q * count - count;
    SmallMultiple(p - q - 1, count);
  }

  // ------------------------------------------------------------------------------------------------------------
  // The residue class: no index is skipped, and none is opened twice by arriving messages
  // ------------------------------------------------------------------------------------------------------------

  /** The event is a message. */
  predicate Arrives(e: Event) {
    e.Message? || e.Milestone?
  }

  /** The members of the residue class that have had their turn. */
  ghost predicate Window(s: State, x: nat)
    requires s.count > 0
  {
    s.first.Some? && s.first.value <= x < s.expected && Mine(s, x)
  }

  /** Apart from the entry, a push only touches what is known about the database. */
  lemma PushFrame(s: State, index: nat)
    requires index in s.entries
    ensures var t := PushIfCompleted(s, index).0;
            && t.entries == (if s.entries[index].Completed() then s.entries - {index} else s.entries)
            && t == s.(entries := t.entries, inDatabase := t.inDatabase, lruInDatabase := t.lruInDatabase)
  {
  }

  /** The part of the state the residue class depends on. */
  ghost predicate SameWindow(s: State, t: State) {
    t.id == s.id && t.count == s.count && t.gapStart == s.gapStart && t.first == s.first && t.expected == s.expected
  }

  /** Events that only change one entry of the class, or drop it. */
  ghost predicate Touches(s: State, t: State, index: nat) {
    && SameWindow(s, t)
    && (forall k :: k in t.entries && k != index ==> k in s.entries && t.entries[k] == s.entries[k])
    && (index in t.entries ==> t.entries[index].index == index)
    && t.unreachable <= s.unreachable + {index}
    && !(index in t.entries && index in t.unreachable)
  }

  lemma TouchKeepsIndexed(s: State, t: State, index: nat)
    requires Indexed(s) && Touches(s, t, index)
    requires index in t.entries || index in t.unreachable ==> Mine(s, index) && index < s.expected
    ensures Indexed(t)
  {
  }

  lemma SolidifyTouches(s: State, index: nat)
    requires Indexed(s)
    ensures Touches(s, HandleSolidify(s, index).0, index)
    ensures var t := HandleSolidify(s, index).0; index in t.entries ==> index < s.expected
    ensures HandleSolidify(s, index).0.unreachable <= s.unreachable
  {
  }

  lemma FailureTouches(s: State, index: nat)
    requires Indexed(s)
    ensures Touches(s, HandleSolidifyFailure(s, index).0, index)
    ensures var t := HandleSolidifyFailure(s, index).0; (index in t.entries ==> index in s.entries) && (index in t.unreachable ==> index < s.expected)
  {
  }

  lemma CloseTouches(s: State, id: MessageId, index: nat)
    requires Indexed(s)
    ensures Touches(s, HandleClose(s, id, index).0, index)
    ensures var t := HandleClose(s, id, index).0; (index in t.entries ==> index in s.entries) && t.unreachable == s.unreachable
  {
    if index in s.entries {
      var d := s.entries[index];
      PushFrame(s.(entries := s.entries[index := d.(pending := d.pending - {id})]), index);
    }
  }

  /** A message for a milestone that has an entry. */
  lemma StoreTouches(s: State, e: Event)
    requires Indexed(s) && Arrives(e) && Subject(e) in s.entries
    ensures var t := Step(s, e).0;
            Touches(s, t, Subject(e)) && t.unreachable == s.unreachable && t.entries.Keys <= s.entries.Keys
  {
    var index := Subject(e);
    var d := Stored(s.entries[index], e.message);
    PushFrame(s.(entries := s.entries[index := if e.Message? then d else d.(milestone := Some(e.message.id))]), index);
  }

  /** A message for a milestone without an entry opens the entries of exactly the members of the class whose turn comes
      with it. */
  lemma ArrivalOpens(s: State, e: Event)
    requires Indexed(s) && Arrives(e) && Mine(s, Subject(e)) && Subject(e) !in s.entries
    ensures var t := Step(s, e).0;
            && Indexed(t) && t.count == s.count && t.id == s.id && t.unreachable == s.unreachable
            && s.expected <= t.expected && (s.first.Some? ==> t.first == s.first)
            && (forall k :: k in s.entries ==> k in t.entries && t.entries[k] == s.entries[k])
            && (forall x :: x in t.entries && x !in s.entries <==> Window(t, x) && !Window(s, x))
  {
    var t, index := Step(s, e).0, Subject(e);
    assert t == InsertNewEntryOrNot(s, index, e.message).0;
    if index !in s.unreachable {
      if s.first.None? {
        if index >= s.gapStart {
          FirstOpens(s, index, e.message);
        }
      } else if index >= s.expected {
        IncomingOpens(s, index, e.message);
      }
    }
  }

  lemma FirstOpens(s: State, index: nat, m: FullMessage)
    requires Indexed(s) && Mine(s, index) && s.first.None? && index >= s.gapStart
    ensures var t := InsertFirst(s, index, m).0;
            && Indexed(t)
            && forall x :: x in t.entries && x !in s.entries <==> Window(t, x) && !Window(s, x)
  {
    ClassGoesOn(index, s.count);
    forall x: nat | index < x < index + s.count
      ensures x % s.count != s.id
    {
      NextInClass(index, x, s.count);
    }
  }

  lemma IncomingOpens(s: State, index: nat, m: FullMessage)
    requires Indexed(s) && Mine(s, index) && s.first.Some? && index >= s.expected
    ensures var t := InsertIncoming(s, index, m).0;
            && Indexed(t)
            && (forall k :: k in s.entries ==> k in t.entries && t.entries[k] == s.entries[k])
            && forall x :: x in t.entries && x !in s.entries <==> Window(t, x) && !Window(s, x)
  {
    ClassGoesOn(index, s.count);
    forall x: nat | index < x < index + s.count
      ensures x % s.count != s.id
    {
      NextInClass(index, x, s.count);
    }
  }

  /** Every event of the residue class keeps the entries in order. */
  lemma StepKeepsIndexed(s: State, e: Event)
    requires Indexed(s) && Mine(s, Subject(e))
    ensures var t := Step(s, e).0; Indexed(t) && t.count == s.count && t.id == s.id
  {
    var t, index := Step(s, e).0, Subject(e);
    if Arrives(e) && index in s.entries {
      StoreTouches(s, e);
      TouchKeepsIndexed(s, t, index);
    } else if Arrives(e) {
      ArrivalOpens(s, e);
    } else if e.CloseMessage? {
      CloseTouches(s, e.id, index);
      TouchKeepsIndexed(s, t, index);
    } else if e.Solidify? {
      SolidifyTouches(s, index);
      TouchKeepsIndexed(s, t, index);
    } else if e.SolidifyFailure? {
      FailureTouches(s, index);
      TouchKeepsIndexed(s, t, index);
    }
  }
}
