/**
 * Where `printMessage` puts an incoming message: the first position of the
 * room's message list whose message is strictly later than the new one.
 */
module Ordering {
  import opened Model

  /** A message list ordered by ascending time (equal times allowed). */
  predicate Ascending(s: seq<Message>) {
    forall i, j :: 0 <= i < j < |s| ==> s[i].time <= s[j].time
  }

  /** The list with `m` inserted at `index`, which is what an `addMessage(m, index)` payload asks for. */
  function InsertAt(s: seq<Message>, index: nat, m: Message): (r: seq<Message>)
    requires index <= |s|
    ensures |r| == |s| + 1
    ensures forall k :: 0 <= k < |r| ==> r[k] == if k < index then s[k] else if k == index then m else s[k - 1]
  {
    s[..index] + [m] + s[index..]
  }

  /** The first index whose message has a time greater than `time`, or `|s|` when there is none. */
  function InsertionIndex(s: seq<Message>, time: int): (index: nat)
    ensures index <= |s|
  {
    if s == [] || s[0].time > time then 0 else 1 + InsertionIndex(s[1..], time)
  }

  /** The index InsertionIndex finds: everything before it is no later, the message at it is later. */
  lemma {:induction false} InsertionIndexSpec(s: seq<Message>, time: int)
    ensures var index := InsertionIndex(s, time);
      && index <= |s|
      && (forall j :: 0 <= j < index ==> s[j].time <= time)
      && (index < |s| ==> s[index].time > time)
  {
    if s != [] && s[0].time <= time {
      InsertionIndexSpec(s[1..], time);
      var index := InsertionIndex(s, time);
      forall j | 0 <= j < index ensures s[j].time <= time {
        if j > 0 {
          assert s[j] == s[1..][j - 1];
        }
      }
    }
  }

  /** Those two facts single out the index: no other position satisfies them. */
  lemma InsertionIndexUnique(s: seq<Message>, time: int, k: nat)
    requires k <= |s|
    requires forall j :: 0 <= j < k ==> s[j].time <= time
    requires k < |s| ==> s[k].time > time
    ensures k == InsertionIndex(s, time)
  {
    InsertionIndexSpec(s, time);
  }

  /**
   * The scan of `printMessage`: advance `index` while the message there is
   * not later than `time`, stop at the first later one.
   */
  method FindInsertIndex(messages: seq<Message>, time: int) returns (index: nat)
    ensures index <= |messages|
    ensures forall j :: 0 <= j < index ==> messages[j].time <= time
    ensures index < |messages| ==> messages[index].time > time
    ensures index == InsertionIndex(messages, time)
  {
    index := 0;
    while index < |messages|
      invariant index <= |messages|
      invariant forall j :: 0 <= j < index ==> messages[j].time <= time
    {
      if messages[index].time > time {
        break;
      }
      index := index + 1;
    }
    InsertionIndexUnique(messages, time, index);
  }

  /**
   * Inserting at the index keeps an ascending list ascending, and a message
   * whose time equals existing ones lands after all of them.
   */
  lemma InsertKeepsAscending(s: seq<Message>, m: Message)
    requires Ascending(s)
    ensures var index := InsertionIndex(s, m.time);
      && Ascending(InsertAt(s, index, m))
      && (forall j :: 0 <= j < |s| && s[j].time == m.time ==> j < index)
  {
    InsertionIndexSpec(s, m.time);
    InsertBetweenKeepsAscending(s, InsertionIndex(s, m.time), m);
  }

  lemma InsertBetweenKeepsAscending(s: seq<Message>, index: nat, m: Message)
    requires Ascending(s) && index <= |s|
    requires forall j :: 0 <= j < index ==> s[j].time <= m.time
    requires index < |s| ==> s[index].time > m.time
    ensures Ascending(InsertAt(s, index, m))
  {
    var r := InsertAt(s, index, m);
    forall i, j | 0 <= i < j < |r| ensures r[i].time <= r[j].time {
      if j < index {
        assert r[i] == s[i] && r[j] == s[j];
      } else if j == index {
        assert r[i] == s[i];
      } else if i < index {
        assert r[i] == s[i] && r[j] == s[j - 1];
      } else if i == index {
        assert r[j] == s[j - 1] && s[index].time <= s[j - 1].time;
      } else {
        assert r[i] == s[i - 1] && r[j] == s[j - 1];
      }
    }
  }

  /** In an ascending list the index is the number of messages no later than `time`. */
  lemma {:induction false} InsertionIndexCountsEarlier(s: seq<Message>, time: int)
    requires Ascending(s)
    ensures InsertionIndex(s, time) == |NotLater(s, time)|
  {
    if s != [] {
      assert Ascending(s[1..]) by {
        forall i, j | 0 <= i < j < |s[1..]| ensures s[1..][i].time <= s[1..][j].time {
          assert s[1..][i] == s[i + 1] && s[1..][j] == s[j + 1];
        }
      }
      InsertionIndexCountsEarlier(s[1..], time);
      if s[0].time > time {
        NoneNotLater(s[1..], time, s[0].time);
      }
    }
  }

  /** The messages of `s` whose time is not later than `time`, in order. */
  function NotLater(s: seq<Message>, time: int): seq<Message> {
    if s == [] then []
    else (if s[0].time <= time then [s[0]] else []) + NotLater(s[1..], time)
  }

  lemma {:induction false} NoneNotLater(s: seq<Message>, time: int, bound: int)
    requires bound > time
    requires forall i :: 0 <= i < |s| ==> s[i].time >= bound
    ensures NotLater(s, time) == []
  {
    if s != [] {
      NoneNotLater(s[1..], time, bound);
    }
  }
}
