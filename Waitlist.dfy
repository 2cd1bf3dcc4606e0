/**
 * The restaurant waitlist of hw10/waitlist.py: validated times of day,
 * entries ordered by reservation time and then by name, and a waitlist
 * that keeps its entries in that order.
 *
 * `add_customer` appends and then calls `list.sort`. On a list already in
 * order this is `Insert`, and `AddIsSort` shows that no other sorted
 * arrangement of the same entries exists, so the sorting algorithm does
 * not matter.
 */
module Waitlist {
  import opened Util
  import opened Strings

  /** A time of day; only `MakeTime` builds one, so the fields are always in range. */
  datatype Time = Time(hour: int, minute: int)

  predicate ValidTime(t: Time)
  {
    0 <= t.hour < 24 && 0 <= t.minute < 60
  }

  /** `Time(hour, minute)` with `__post_init__`: a ValueError for an hour or a minute out of range. */
  function MakeTime(hour: int, minute: int): (r: Result<Time>)
    ensures r.Ok? <==> 0 <= hour < 24 && 0 <= minute < 60
    ensures r.Ok? ==> ValidTime(r.value) && r.value.hour == hour && r.value.minute == minute
    ensures r.Err? ==> r.error == ValueError
  {
    if !(0 <= hour < 24) then Err(ValueError)
    else if !(0 <= minute < 60) then Err(ValueError)
    else Ok(Time(hour, minute))
  }

  // ---------------------------------------------------------------------------
  // Rendering

  /** `f"{n:02d}"`: at least two digits, a leading zero below ten. */
  function Pad2(n: nat): string
  {
    ZFill(NatToString(n), 2)
  }

  lemma Pad2Digits(n: nat)
    requires n < 100
    ensures Pad2(n) == [DigitChar(n / 10), DigitChar(n % 10)]
  {
    if n >= 10 {
      assert NatToString(n) == NatToString(n / 10) + [DigitChar(n % 10)];
    } else {
      assert Zeros(1) == ['0'];
    }
  }

  /** `Time.__str__`, `HH:MM`: five characters, two digits of the hour, a colon, two digits of the minute. */
  function TimeStr(t: Time): (s: string)
    requires ValidTime(t)
    ensures s == [DigitChar(t.hour / 10), DigitChar(t.hour % 10), ':', DigitChar(t.minute / 10), DigitChar(t.minute % 10)]
  {
    Pad2Digits(t.hour);
    Pad2Digits(t.minute);
    Pad2(t.hour) + ":" + Pad2(t.minute)
  }

  lemma TwoDigitsValue(a: nat, b: nat)
    requires a < 10 && b < 10
    ensures IsDigits([DigitChar(a), DigitChar(b)]) && DigitsValue([DigitChar(a), DigitChar(b)]) == 10 * a + b
  {
    var s := [DigitChar(a), DigitChar(b)];
    assert s[..1] == [DigitChar(a)] && s[..1][..0] == [];
    assert DigitsValue(s[..1]) == a;
  }

  /** The hour and the minute read back from their columns. */
  lemma TimeStrRoundTrip(t: Time)
    requires ValidTime(t)
    ensures var s := TimeStr(t);
      |s| == 5 && s[2] == ':' && IsDigits(s[..2]) && IsDigits(s[3..]) &&
      DigitsValue(s[..2]) == t.hour && DigitsValue(s[3..]) == t.minute
  {
    var s := TimeStr(t);
    assert s[..2] == [DigitChar(t.hour / 10), DigitChar(t.hour % 10)];
    assert s[3..] == [DigitChar(t.minute / 10), DigitChar(t.minute % 10)];
    TwoDigitsValue(t.hour / 10, t.hour % 10);
    TwoDigitsValue(t.minute / 10, t.minute % 10);
  }

  /** On strings of one length, the first differing character decides. */
  lemma LexLessStep(s: string, v: string)
    requires |s| == |v| && |s| > 0
    ensures LexLess(s, v) <==> s[0] < v[0] || (s[0] == v[0] && LexLess(s[1..], v[1..]))
  {
  }

  /** Two digits compare as the numbers they spell. */
  lemma DigitPairLess(h: nat, g: nat)
    requires h < 100 && g < 100
    ensures h < g <==> DigitChar(h / 10) < DigitChar(g / 10) || (h / 10 == g / 10 && DigitChar(h % 10) < DigitChar(g % 10))
    ensures h == g <==> h / 10 == g / 10 && h % 10 == g % 10
  {
  }

  /** Because of the zero padding, the text of two times sorts as the times do. */
  lemma TimeStrOrder(t: Time, u: Time)
    requires ValidTime(t) && ValidTime(u)
    ensures TimeLess(t, u) <==> LexLess(TimeStr(t), TimeStr(u))
  {
    var s, v := TimeStr(t), TimeStr(u);
    LexLessStep(s, v);
    LexLessStep(s[1..], v[1..]);
    LexLessStep(s[2..], v[2..]);
    LexLessStep(s[3..], v[3..]);
    LexLessStep(s[4..], v[4..]);
    assert s[1..][1..] == s[2..] && v[1..][1..] == v[2..];
    assert s[2..][1..] == s[3..] && v[2..][1..] == v[3..];
    assert s[3..][1..] == s[4..] && v[3..][1..] == v[4..];
    assert s[4..][1..] == [] && v[4..][1..] == [];
    DigitPairLess(t.hour, u.hour);
    DigitPairLess(t.minute, u.minute);
  }

  // ---------------------------------------------------------------------------
  // Ordering

  /** The dataclass order of `Time`: by hour, then by minute. */
  predicate TimeLess(t: Time, u: Time)
  {
    t.hour < u.hour || (t.hour == u.hour && t.minute < u.minute)
  }

  /** A customer's name and reservation time; the fields compare in this order. */
  datatype Entry = Entry(time: Time, name: string)

  /** The dataclass order of `Entry`: by time, then by name. */
  predicate EntryLess(e: Entry, f: Entry)
  {
    TimeLess(e.time, f.time) || (e.time == f.time && LexLess(e.name, f.name))
  }

  lemma EntryLessIrreflexive(e: Entry)
    ensures !EntryLess(e, e)
  {
    assert !LexLess(e.name, e.name);
  }

  lemma EntryLessTransitive(e: Entry, f: Entry, g: Entry)
    requires EntryLess(e, f) && EntryLess(f, g)
    ensures EntryLess(e, g)
  {
    if e.time == f.time && f.time == g.time {
      LexLessTransitive(e.name, f.name, g.name);
    }
  }

  /** Two different entries are ordered one way or the other. */
  lemma EntryLessTotal(e: Entry, f: Entry)
    requires e != f
    ensures EntryLess(e, f) || EntryLess(f, e)
  {
    if e.time == f.time {
      LexLessTotal(e.name, f.name);
    }
  }

  // ---------------------------------------------------------------------------
  // Sorted entries

  /** No entry is smaller than one before it. */
  predicate EntriesSorted(s: seq<Entry>)
  {
    forall i, j :: 0 <= i < j < |s| ==> !EntryLess(s[j], s[i])
  }

  /** Puts `e` before the first entry greater than it. */
  function Insert(e: Entry, s: seq<Entry>): (r: seq<Entry>)
    ensures multiset(r) == multiset(s) + multiset{e}
  {
    if s == [] then [e]
    else
      assert s == [s[0]] + s[1..];
      if EntryLess(e, s[0]) then [e] + s
      else [s[0]] + Insert(e, s[1..])
  }

  lemma ConsSorted(a: Entry, rest: seq<Entry>)
    requires EntriesSorted(rest) && forall e :: e in rest ==> !EntryLess(e, a)
    ensures EntriesSorted([a] + rest)
  {
    var r := [a] + rest;
    forall i, j | 0 <= i < j < |r|
      ensures !EntryLess(r[j], r[i])
    {
      assert r[j] == rest[j - 1];
      if i > 0 {
        assert r[i] == rest[i - 1];
      }
    }
  }

  lemma {:induction false} InsertSorted(e: Entry, s: seq<Entry>)
    requires EntriesSorted(s)
    ensures EntriesSorted(Insert(e, s))
  {
    if s == [] {
    } else if EntryLess(e, s[0]) {
      forall d | d in s
        ensures !EntryLess(d, e)
      {
        if EntryLess(d, e) {
          EntryLessTransitive(d, e, s[0]);
          EntryLessIrreflexive(s[0]);
        }
      }
      ConsSorted(e, s);
    } else {
      InsertSorted(e, s[1..]);
      var tail := Insert(e, s[1..]);
      forall d | d in tail
        ensures !EntryLess(d, s[0])
      {
        assert d in multiset(tail);
        if d != e {
          assert d in multiset(s[1..]);
          var m :| 0 <= m < |s[1..]| && s[1..][m] == d;
          assert s[m + 1] == d;
        }
      }
      ConsSorted(s[0], tail);
    }
  }

  /** The head of a sorted list is its least entry. */
  lemma SortedHead(s: seq<Entry>)
    requires EntriesSorted(s) && s != []
    ensures forall e :: e in s ==> e == s[0] || EntryLess(s[0], e)
  {
    forall e | e in s
      ensures e == s[0] || EntryLess(s[0], e)
    {
      var k :| 0 <= k < |s| && s[k] == e;
      if e != s[0] {
        EntryLessTotal(e, s[0]);
      }
    }
  }

  lemma SameHead(s: seq<Entry>, t: seq<Entry>)
    requires EntriesSorted(s) && EntriesSorted(t) && multiset(s) == multiset(t) && s != []
    ensures t != [] && s[0] == t[0]
  {
    SortedHead(s);
    forall e | e in t
      ensures e == s[0] || EntryLess(s[0], e)
    {
      assert e in multiset(t);
    }
    assert s[0] in multiset(t);
    var k :| 0 <= k < |t| && t[k] == s[0];
  }

  lemma SameTail(s: seq<Entry>, t: seq<Entry>)
    requires multiset(s) == multiset(t) && s != [] && t != [] && s[0] == t[0]
    ensures multiset(s[1..]) == multiset(t[1..]) && |s[1..]| < |s|
  {
    assert s == [s[0]] + s[1..] && t == [t[0]] + t[1..];
    assert multiset(s[1..]) == multiset(s) - multiset{s[0]};
    assert multiset(t[1..]) == multiset(t) - multiset{s[0]};
  }

  /** Two sorted arrangements of the same entries are the same list. */
  lemma {:induction false} SortedUnique(s: seq<Entry>, t: seq<Entry>)
    requires EntriesSorted(s) && EntriesSorted(t) && multiset(s) == multiset(t)
    ensures s == t
    decreases |s|
  {
    if s != [] {
      SameHead(s, t);
      SameTail(s, t);
      SortedUnique(s[1..], t[1..]);
    }
  }

  /** Appending to a sorted list and sorting gives `Insert`, whichever sort is used. */
  lemma AddIsSort(s: seq<Entry>, e: Entry, t: seq<Entry>)
    requires EntriesSorted(s) && EntriesSorted(t) && multiset(t) == multiset(s + [e])
    ensures t == Insert(e, s)
  {
    InsertSorted(e, s);
    SortedUnique(Insert(e, s), t);
  }

  /** Removing one entry keeps a list sorted. */
  lemma RemoveAtSorted(s: seq<Entry>, i: nat)
    requires EntriesSorted(s) && i < |s|
    ensures EntriesSorted(s[..i] + s[i + 1..])
  {
    var r := s[..i] + s[i + 1..];
    forall k, l | 0 <= k < l < |r|
      ensures !EntryLess(r[l], r[k])
    {
      var k', l' := if k < i then k else k + 1, if l < i then l else l + 1;
      assert r[k] == s[k'] && r[l] == s[l'];
    }
  }

  /** The position of the first entry under `name`, as `change_reservation`'s loop finds it. */
  function FirstNamed(s: seq<Entry>, name: string): (r: Option<nat>)
    ensures r.None? <==> forall k :: 0 <= k < |s| ==> s[k].name != name
    ensures r.Some? ==> r.value < |s| && s[r.value].name == name && forall k :: 0 <= k < r.value ==> s[k].name != name
  {
    if s == [] then None
    else if s[0].name == name then Some(0)
    else match FirstNamed(s[1..], name)
      case None => None
      case Some(i) => Some(i + 1)
  }

  // ---------------------------------------------------------------------------
  // The waitlist

  class Waitlist {
    /** The entries, the next customer to be seated first. */
    var entries: seq<Entry>

    /** Every method keeps the entries sorted. */
    predicate Valid()
      reads this
    {
      EntriesSorted(entries)
    }

    constructor()
      ensures Valid() && entries == []
    {
      entries := [];
    }

    /** `add_customer`: the entry joins the list, which stays sorted. */
    method AddCustomer(item: string, priority: Time)
      requires Valid()
      modifies this
      ensures Valid()
      ensures entries == Insert(Entry(priority, item), old(entries))
      ensures multiset(entries) == multiset(old(entries)) + multiset{Entry(priority, item)}
      ensures |entries| == |old(entries)| + 1
    {
      var e := Entry(priority, item);
      InsertSorted(e, entries);
      entries := Insert(e, entries);
      assert |multiset(entries)| == |multiset(old(entries))| + 1;
    }

    /** `peek`: the first customer's name and time, None for an empty list; it is a least entry. */
    function Peek(): (r: Option<(string, Time)>)
      reads this
      ensures r.None? <==> entries == []
      ensures r.Some? ==> Entry(r.value.1, r.value.0) in entries
      ensures r.Some? && Valid() ==> forall k :: 0 <= k < |entries| ==> !EntryLess(entries[k], Entry(r.value.1, r.value.0))
    {
      if entries == [] then None
      else
        EntryLessIrreflexive(entries[0]);
        Some((entries[0].name, entries[0].time))
    }

    /**
     * `seat_customer`: the first entry leaves the list and is returned; a
     * ValueError when the list is empty. No customer left has an earlier
     * time, so successive seatings come in time order.
     */
    method SeatCustomer() returns (r: Result<(string, Time)>)
      requires Valid()
      modifies this
      ensures Valid()
      ensures old(entries) == [] ==> r == Err(ValueError) && entries == old(entries)
      ensures old(entries) != [] ==>
        r == Ok((old(entries)[0].name, old(entries)[0].time)) && entries == old(entries)[1..]
      ensures r.Ok? ==> forall e :: e in entries ==> !TimeLess(e.time, r.value.1)
    {
      if entries == [] {
        return Err(ValueError);
      }
      var first := entries[0];
      entries := entries[1..];
      r := Ok((first.name, first.time));
      forall e | e in entries
        ensures !TimeLess(e.time, first.time)
      {
        var k :| 0 <= k < |entries| && entries[k] == e;
        assert old(entries)[k + 1] == e;
      }
    }

    /**
     * `change_reservation`: the first entry under `name` is taken out and
     * the customer is added again with the new time; a ValueError when no
     * entry has that name.
     */
    method ChangeReservation(name: string, newPriority: Time) returns (o: Outcome)
      requires Valid()
      modifies this
      ensures Valid()
      ensures match FirstNamed(old(entries), name)
        case None => o == Raised(ValueError) && entries == old(entries)
        case Some(i) =>
          o == Done && entries == Insert(Entry(newPriority, name), old(entries)[..i] + old(entries)[i + 1..])
    {
      var i := 0;
      while i < |entries|
        invariant 0 <= i <= |entries| && entries == old(entries)
        invariant forall k :: 0 <= k < i ==> entries[k].name != name
      {
        if entries[i].name == name {
          RemoveAtSorted(entries, i);
          entries := entries[..i] + entries[i + 1..];
          AddCustomer(name, newPriority);
          return Done;
        }
        i := i + 1;
      }
      return Raised(ValueError);
    }
  }

  /** A changed reservation holds the same customers, one entry moved to the new time. */
  lemma ChangeKeepsOthers(s: seq<Entry>, i: nat, e: Entry)
    requires i < |s|
    ensures multiset(Insert(e, s[..i] + s[i + 1..])) == multiset(s) - multiset{s[i]} + multiset{e}
  {
    assert s == s[..i] + [s[i]] + s[i + 1..];
    assert multiset(s) == multiset(s[..i]) + multiset{s[i]} + multiset(s[i + 1..]);
  }
}
