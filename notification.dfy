/**
 * Loan notifications: a list of observers without duplicates, and a fan-out that hands a
 * message to each observer in attach order. An observer stands for an opaque identity; what
 * it does with a message is outside the model, except that it may throw, which the subject
 * catches (and logs), so delivery goes on to the next observer. Each attempt is recorded.
 */
module Notifications {
  import opened Wrappers
  import opened Text

  /** The identity of an attached observer object. */
  type ObserverId = nat

  /** One call of `update`: to whom, with what, and whether the observer threw. */
  datatype Delivery = Delivery(observer: ObserverId, message: string, threw: bool)

  predicate NoDuplicates(s: seq<ObserverId>)
  {
    forall i, j :: 0 <= i < j < |s| ==> s[i] != s[j]
  }

  /**
   * The attempts `notifyObservers` makes: one per observer, in list order, each with the
   * message; `failing` names the observers whose `update` throws.
   */
  function Deliveries(observers: seq<ObserverId>, message: string, failing: set<ObserverId>): (r: seq<Delivery>)
    ensures |r| == |observers|
    ensures forall i :: 0 <= i < |observers| ==>
              r[i].observer == observers[i] && r[i].message == message && (r[i].threw <==> observers[i] in failing)
  {
    if observers == [] then []
    else [Delivery(observers[0], message, observers[0] in failing)] + Deliveries(observers[1..], message, failing)
  }

  lemma {:induction false} DeliveriesAppend(a: seq<ObserverId>, b: seq<ObserverId>, message: string, failing: set<ObserverId>)
    ensures Deliveries(a + b, message, failing) == Deliveries(a, message, failing) + Deliveries(b, message, failing)
  {
    if a == [] {
      assert a + b == b;
    } else {
      assert (a + b)[1..] == a[1..] + b;
      DeliveriesAppend(a[1..], b, message, failing);
    }
  }

  /**
   * A throwing observer does not stop the fan-out: every observer that does not throw gets
   * the message, whatever comes before it in the list.
   */
  lemma {:induction false} FailuresAreIsolated(observers: seq<ObserverId>, message: string, failing: set<ObserverId>, o: ObserverId)
    requires o in observers && o !in failing
    ensures Delivery(o, message, false) in Deliveries(observers, message, failing)
  {
    var i :| 0 <= i < |observers| && observers[i] == o;
    assert Deliveries(observers, message, failing)[i] == Delivery(o, message, false);
  }

  /** `List.remove(Object)` on a list without duplicates: the one copy of `o` goes. */
  function Without(s: seq<ObserverId>, o: ObserverId): (r: seq<ObserverId>)
    ensures o !in r
    ensures forall x :: x in r <==> x in s && x != o
    ensures o in s ==> |r| < |s|
    ensures o !in s ==> r == s
  {
    if s == [] then []
    else if s[0] == o then Without(s[1..], o)
    else [s[0]] + Without(s[1..], o)
  }

  /** On a list without duplicates this is `List.remove`: the list minus the one position of `o`. */
  lemma {:induction false} WithoutRemovesPosition(s: seq<ObserverId>, o: ObserverId, i: nat)
    requires NoDuplicates(s) && i < |s| && s[i] == o
    ensures Without(s, o) == s[..i] + s[i + 1..]
  {
    if i == 0 {
      assert o !in s[1..];
    } else {
      WithoutRemovesPosition(s[1..], o, i - 1);
      assert s[..i] == [s[0]] + s[1..][..i - 1];
      assert s[i + 1..] == s[1..][i..];
    }
  }

  lemma {:induction false} WithoutNoDuplicates(s: seq<ObserverId>, o: ObserverId)
    requires NoDuplicates(s)
    ensures NoDuplicates(Without(s, o))
  {
    if s != [] {
      WithoutNoDuplicates(s[1..], o);
      if s[0] != o {
        assert s[0] !in s[1..];
        assert s[0] !in Without(s[1..], o);
      }
    }
  }

  /** The observers a list holds. */
  function Members(s: seq<ObserverId>): set<ObserverId>
  {
    set o | o in s
  }

  /** Without duplicates, the list is as long as the set of observers it holds. */
  lemma {:induction false} DistinctCount(s: seq<ObserverId>)
    requires NoDuplicates(s)
    ensures |Members(s)| == |s|
  {
    if s != [] {
      var rest := Members(s[1..]);
      DistinctCount(s[1..]);
      assert Members(s) == rest + {s[0]};
      assert s[0] !in rest by {
        forall j | 0 <= j < |s[1..]| ensures s[1..][j] != s[0] {
          assert s[1..][j] == s[j + 1];
        }
      }
      assert |rest + {s[0]}| == |rest| + 1;
    }
  }

  /** "New loan created - User: %s, Document: %s". */
  function LoanCreatedMessage(userId: string, documentId: string): string
  {
    "New loan created - User: " + userId + ", Document: " + documentId
  }

  /** "Document returned - User: %s, Document: %s". */
  function LoanReturnedMessage(userId: string, documentId: string): string
  {
    "Document returned - User: " + userId + ", Document: " + documentId
  }

  /** "OVERDUE - User: %s, Document: %s (%d days overdue)". */
  function LoanOverdueMessage(userId: string, documentId: string, daysOverdue: int32): string
  {
    "OVERDUE - User: " + userId + ", Document: " + documentId + " (" + IntToString(daysOverdue) + " days overdue)"
  }

  /**
   * The three kinds of message never coincide, and each quotes the user id right after its
   * fixed head and the document id at its end.
   */
  lemma {:induction false} MessageShapes(userId: string, documentId: string, days: int32)
    ensures LoanCreatedMessage(userId, documentId)[25..25 + |userId|] == userId
    ensures LoanReturnedMessage(userId, documentId)[26..26 + |userId|] == userId
    ensures LoanOverdueMessage(userId, documentId, days)[16..16 + |userId|] == userId
    ensures var m := LoanCreatedMessage(userId, documentId); m[|m| - |documentId|..] == documentId
    ensures var m := LoanReturnedMessage(userId, documentId); m[|m| - |documentId|..] == documentId
    ensures LoanCreatedMessage(userId, documentId) != LoanReturnedMessage(userId, documentId)
    ensures LoanCreatedMessage(userId, documentId) != LoanOverdueMessage(userId, documentId, days)
    ensures LoanReturnedMessage(userId, documentId) != LoanOverdueMessage(userId, documentId, days)
  {
    assert LoanCreatedMessage(userId, documentId)[0] == 'N';
    assert LoanReturnedMessage(userId, documentId)[0] == 'D';
    assert LoanOverdueMessage(userId, documentId, days)[0] == 'O';
  }

  /** The subject: observers in attach order, and the record of every `update` call made. */
  class LoanNotificationSystem {
    var observers: seq<ObserverId>
    var log: seq<Delivery>

    predicate Valid()
      reads this
    {
      NoDuplicates(observers)
    }

    constructor ()
      ensures Valid() && observers == [] && log == []
    {
      observers := [];
      log := [];
    }

    /** `attach`: `null` and observers already attached are ignored; others go to the end. */
    method Attach(observer: Option<ObserverId>)
      requires Valid()
      modifies this
      ensures Valid()
      ensures observers == if observer.Some? && observer.value !in old(observers)
                           then old(observers) + [observer.value] else old(observers)
      ensures log == old(log)
    {
      if observer.Some? && observer.value !in observers {
        observers := observers + [observer.value];
      }
    }

    /** `detach`: the observer goes if attached; otherwise nothing changes. */
    method Detach(observer: Option<ObserverId>)
      requires Valid()
      modifies this
      ensures Valid()
      ensures observers == if observer.Some? then Without(old(observers), observer.value) else old(observers)
      ensures log == old(log)
    {
      if observer.Some? {
        WithoutNoDuplicates(observers, observer.value);
        observers := Without(observers, observer.value);
      }
    }

    /** `notifyObservers`: one `update` per observer in order; an exception is caught and skipped. */
    method NotifyObservers(message: string, failing: set<ObserverId>)
      modifies this
      ensures observers == old(observers)
      ensures log == old(log) + Deliveries(observers, message, failing)
    {
      var i := 0;
      while i < |observers|
        invariant 0 <= i <= |observers|
        invariant log == old(log) + Deliveries(observers[..i], message, failing)
        invariant observers == old(observers)
      {
        DeliveriesAppend(observers[..i], [observers[i]], message, failing);
        assert observers[..i + 1] == observers[..i] + [observers[i]];
        log := log + [Delivery(observers[i], message, observers[i] in failing)];
        i := i + 1;
      }
      assert observers[..i] == observers;
    }

    method NotifyLoanCreated(userId: string, documentId: string, failing: set<ObserverId>)
      modifies this
      ensures observers == old(observers)
      ensures log == old(log) + Deliveries(observers, LoanCreatedMessage(userId, documentId), failing)
    {
      NotifyObservers(LoanCreatedMessage(userId, documentId), failing);
    }

    method NotifyLoanReturned(userId: string, documentId: string, failing: set<ObserverId>)
      modifies this
      ensures observers == old(observers)
      ensures log == old(log) + Deliveries(observers, LoanReturnedMessage(userId, documentId), failing)
    {
      NotifyObservers(LoanReturnedMessage(userId, documentId), failing);
    }

    method NotifyLoanOverdue(userId: string, documentId: string, daysOverdue: int32, failing: set<ObserverId>)
      modifies this
      ensures observers == old(observers)
      ensures log == old(log) + Deliveries(observers, LoanOverdueMessage(userId, documentId, daysOverdue), failing)
    {
      NotifyObservers(LoanOverdueMessage(userId, documentId, daysOverdue), failing);
    }

    function GetObserverCount(): (n: nat)
      reads this
      ensures Valid() ==> n == |Members(observers)|
    {
      if Valid() then DistinctCount(observers); |observers| else |observers|
    }
  }
}
