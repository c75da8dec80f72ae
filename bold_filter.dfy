/**
 * `filter_out_non_bolds`: for every day of the calendar, keep the event rows
 * that are equal, cell for cell, to some row of the separately scraped bold
 * rows.  Every day stays, even when nothing of it is kept.
 */
module BoldFilter {
  import opened Assembly

  /** The rows of `events` that occur in `bold`, in their original order. */
  function KeepBold(events: seq<Row>, bold: seq<Row>): (r: seq<Row>)
    ensures |r| <= |events|
    decreases |events|
  {
    if events == [] then []
    else
      var last := events[|events| - 1];
      KeepBold(events[..|events| - 1], bold) + (if last in bold then [last] else [])
  }

  /** The calendar that `filter_out_non_bolds(cal, bold)` returns. */
  function FilterCalendar(cal: Calendar, bold: seq<Row>): (r: Calendar)
    ensures r.days == cal.days
    ensures forall d :: d in r.events <==> d in cal.events
  {
    Calendar(cal.days, map d | d in cal.events :: KeepBold(cal.events[d], bold))
  }

  method FilterOutNonBolds(cal: Calendar, bold: seq<Row>) returns (r: Calendar)
    requires cal.Valid()
    ensures r == FilterCalendar(cal, bold)
  {
    var days: seq<string> := [];
    var filtered: map<string, seq<Row>> := map[];
    for i := 0 to |cal.days|
      invariant days == cal.days[..i]
      invariant FilteredUpTo(cal, bold, i, filtered)
    {
      var day := cal.days[i];
      FilterStep(cal, bold, i, filtered);
      if day !in filtered {
        days := days + [day];
      }
      var kept := KeepBoldEvents(cal.events[day], bold);
      filtered := filtered[day := kept];
      assert days == cal.days[..i + 1];
    }
    assert cal.days[..|cal.days|] == cal.days;
    FilterDone(cal, bold, filtered);
    return Calendar(days, filtered);
  }

  /** The inner loop: the list stored under a day, to which its bold events are appended. */
  method KeepBoldEvents(events: seq<Row>, bold: seq<Row>) returns (kept: seq<Row>)
    ensures kept == KeepBold(events, bold)
  {
    kept := [];
    assert events[..0] == [];
    for j := 0 to |events|
      invariant kept == KeepBold(events[..j], bold)
    {
      KeepBoldSnoc(events[..j + 1], bold);
      assert events[..j + 1][..j] == events[..j];
      if events[j] in bold {
        kept := kept + [events[j]];
      }
    }
    assert events[..|events|] == events;
  }

  /** `filtered` holds the filtered lists of the first `i` days, and nothing else. */
  ghost predicate FilteredUpTo(cal: Calendar, bold: seq<Row>, i: nat, filtered: map<string, seq<Row>>)
    requires i <= |cal.days|
  {
    (forall d :: d in filtered <==> d in cal.days[..i]) &&
    (forall d :: d in filtered ==> d in cal.events && filtered[d] == KeepBold(cal.events[d], bold))
  }

  lemma FilterStep(cal: Calendar, bold: seq<Row>, i: nat, filtered: map<string, seq<Row>>)
    requires cal.Valid() && i < |cal.days|
    requires FilteredUpTo(cal, bold, i, filtered)
    ensures var day := cal.days[i];
      day in cal.events && day !in filtered &&
      FilteredUpTo(cal, bold, i + 1, filtered[day := KeepBold(cal.events[day], bold)])
  {
    var day := cal.days[i];
    assert cal.days[..i + 1] == cal.days[..i] + [day];
    assert day !in cal.days[..i] by {
      assert forall k :: 0 <= k < i ==> cal.days[..i][k] == cal.days[k] != day;
    }
  }

  lemma FilterDone(cal: Calendar, bold: seq<Row>, filtered: map<string, seq<Row>>)
    requires cal.Valid()
    requires FilteredUpTo(cal, bold, |cal.days|, filtered)
    ensures Calendar(cal.days, filtered) == FilterCalendar(cal, bold)
  {
    assert cal.days[..|cal.days|] == cal.days;
  }

  lemma KeepBoldSnoc(events: seq<Row>, bold: seq<Row>)
    requires events != []
    ensures var last := events[|events| - 1];
      KeepBold(events, bold) == 
        if last in bold then KeepBold(events[..|events| - 1], bold) + [last]
        else KeepBold(events[..|events| - 1], bold)
  {
  }

  /** The result has the same days, in the same order, and stays a well-formed dict. */
  lemma FilterKeepsDays(cal: Calendar, bold: seq<Row>)
    requires cal.Valid()
    ensures FilterCalendar(cal, bold).Valid()
    ensures FilterCalendar(cal, bold).days == cal.days
    ensures forall d :: d in FilterCalendar(cal, bold).events <==> d in cal.events
  {
  }

  /** A left-to-right embedding of `a` into `b`. */
  predicate IsSubsequence(a: seq<Row>, b: seq<Row>)
    decreases |b|
  {
    if a == [] then true
    else if b == [] then false
    else
      (a[|a| - 1] == b[|b| - 1] && IsSubsequence(a[..|a| - 1], b[..|b| - 1])) ||
      IsSubsequence(a, b[..|b| - 1])
  }

  lemma {:induction false} SubsequenceMultiset(a: seq<Row>, b: seq<Row>)
    requires IsSubsequence(a, b)
    ensures multiset(a) <= multiset(b)
    decreases |b|
  {
    if a != [] {
      var b' := b[..|b| - 1];
      assert b == b' + [b[|b| - 1]];
      if a[|a| - 1] == b[|b| - 1] && IsSubsequence(a[..|a| - 1], b') {
        SubsequenceMultiset(a[..|a| - 1], b');
        assert a == a[..|a| - 1] + [a[|a| - 1]];
      } else {
        SubsequenceMultiset(a, b');
      }
    }
  }

  /** The kept rows are an order-preserving selection of the day's rows. */
  lemma {:induction false} KeepBoldIsSubsequence(events: seq<Row>, bold: seq<Row>)
    ensures IsSubsequence(KeepBold(events, bold), events)
    decreases |events|
  {
    if events != [] {
      var front := events[..|events| - 1];
      var last := events[|events| - 1];
      KeepBoldIsSubsequence(front, bold);
      var kept := KeepBold(front, bold);
      if last in bold {
        assert (kept + [last])[..|kept|] == kept;
      } else {
        assert events == front + [last];
        assert KeepBold(events, bold) == kept;
        KeepBoldSubsequenceWeaken(kept, front, last);
      }
    }
  }

  lemma {:induction false} KeepBoldSubsequenceWeaken(a: seq<Row>, b: seq<Row>, x: Row)
    requires IsSubsequence(a, b)
    ensures IsSubsequence(a, b + [x])
  {
    assert (b + [x])[..|b|] == b;
  }

  /** Each bold row occurs as often as in the day's list; every other row not at all. */
  lemma {:induction false} KeepBoldCount(events: seq<Row>, bold: seq<Row>, x: Row)
    ensures multiset(KeepBold(events, bold))[x] == if x in bold then multiset(events)[x] else 0
    decreases |events|
  {
    if events != [] {
      var front := events[..|events| - 1];
      var last := events[|events| - 1];
      assert events == front + [last];
      KeepBoldCount(front, bold, x);
    }
  }

  /** A row is kept exactly when it is in the day's list and in the bold rows. */
  lemma KeepBoldMembers(events: seq<Row>, bold: seq<Row>, x: Row)
    ensures x in KeepBold(events, bold) <==> x in events && x in bold
  {
    KeepBoldCount(events, bold, x);
  }

  /**
   * `KeepBold` is the only order-preserving selection of the day's rows that
   * keeps every bold row, as often as it occurs, and nothing else.
   */
  lemma {:induction false} KeepBoldUnique(events: seq<Row>, bold: seq<Row>, t: seq<Row>)
    requires IsSubsequence(t, events)
    requires forall e :: e in t ==> e in bold
    requires forall x :: x in bold ==> multiset(t)[x] == multiset(events)[x]
    ensures t == KeepBold(events, bold)
    decreases |events|
  {
    if events != [] {
      var front := events[..|events| - 1];
      var last := events[|events| - 1];
      assert events == front + [last];
      assert multiset(events) == multiset(front) + multiset{last};
      if last in bold {
        KeepBoldUniqueBold(events, bold, t);
      } else {
        assert t == [] || t[|t| - 1] in t;
        assert IsSubsequence(t, front);
        forall x | x in bold ensures multiset(t)[x] == multiset(front)[x] {
        }
        KeepBoldUnique(front, bold, t);
      }
    }
  }

  /** The case of `KeepBoldUnique` where the day's last row is bold: it ends `t` too. */
  lemma {:induction false} KeepBoldUniqueBold(events: seq<Row>, bold: seq<Row>, t: seq<Row>)
    requires events != [] && events[|events| - 1] in bold
    requires IsSubsequence(t, events)
    requires forall e :: e in t ==> e in bold
    requires forall x :: x in bold ==> multiset(t)[x] == multiset(events)[x]
    ensures t == KeepBold(events, bold)
    decreases |events|, 0
  {
    var front := events[..|events| - 1];
    var last := events[|events| - 1];
    assert events == front + [last];
    assert multiset(events) == multiset(front) + multiset{last};
    assert multiset(t)[last] == multiset(front)[last] + 1;
    assert t != [];
    var t' := t[..|t| - 1];
    assert t == t' + [t[|t| - 1]];
    assert multiset(t) == multiset(t') + multiset{t[|t| - 1]};
    if t[|t| - 1] == last && IsSubsequence(t', front) {
      forall x | x in bold ensures multiset(t')[x] == multiset(front)[x] {
      }
      forall e | e in t' ensures e in bold {
        assert e in t;
      }
      KeepBoldUnique(front, bold, t');
    } else {
      SubsequenceMultiset(t, front);
      assert false;
    }
  }

  /** Filtering a second time with the same bold rows changes nothing. */
  lemma {:induction false} KeepBoldIdempotent(events: seq<Row>, bold: seq<Row>)
    ensures KeepBold(KeepBold(events, bold), bold) == KeepBold(events, bold)
    decreases |events|
  {
    if events != [] {
      var front := events[..|events| - 1];
      var last := events[|events| - 1];
      var kept := KeepBold(front, bold);
      KeepBoldIdempotent(front, bold);
      if last in bold {
        assert KeepBold(events, bold) == kept + [last];
        assert (kept + [last])[..|kept|] == kept;
        assert KeepBold(kept + [last], bold) == KeepBold(kept, bold) + [last];
      } else {
        assert KeepBold(events, bold) == kept;
      }
    }
  }

  lemma FilterCalendarIdempotent(cal: Calendar, bold: seq<Row>)
    ensures FilterCalendar(FilterCalendar(cal, bold), bold) == FilterCalendar(cal, bold)
  {
    var once := FilterCalendar(cal, bold);
    var twice := FilterCalendar(once, bold);
    forall d | d in once.events
      ensures twice.events[d] == once.events[d]
    {
      KeepBoldIdempotent(cal.events[d], bold);
    }
  }

  /** A day all of whose rows are bold is kept whole. */
  lemma {:induction false} KeepBoldAllBold(events: seq<Row>, bold: seq<Row>)
    requires forall k :: 0 <= k < |events| ==> events[k] in bold
    ensures KeepBold(events, bold) == events
    decreases |events|
  {
    if events != [] {
      var front := events[..|events| - 1];
      KeepBoldAllBold(front, bold);
      assert front + [events[|events| - 1]] == events;
    }
  }
}
