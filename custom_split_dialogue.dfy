/** The custom percentage split editor of
    walmart-bill-frontend/src/components/CustomSplitDialogue.js: for one item,
    a percentage per selected person, their running total, and a save that is
    only allowed when the percentages add up to 100. */
module CustomSplitDialogue {
  import opened Wrappers

  /** One entry of the splits map as `parseFloat` reads it: the number, or
      None for a value that is not a number. */
  type Entry = Option<real>

  /** The splits map, from person name to that person's entry. */
  type Splits = map<string, Entry>

  /** The message shown while the percentages do not add up. */
  const TotalError := "Percentages must add up to 100%"

  /** What an entry adds to the total: `parseFloat(value) || 0`. */
  function Contribution(e: Entry): (r: real)
    ensures e.Some? ==> r == e.value
    ensures e.None? ==> r == 0.0
  {
    match e
    case Some(x) => x
    case None => 0.0
  }

  /** The sum of all entries' contributions. JavaScript adds them in the
      object's property order; over the reals the order does not matter, which
      TotalRemove states. */
  ghost function Total(s: Splits): (r: real)
    ensures s == map[] ==> r == 0.0
    decreases |s|
  {
    if s == map[] then 0.0
    else
      var k :| k in s;
      Contribution(s[k]) + Total(s - {k})
  }

  /** Any entry can be taken out of the total first. */
  lemma {:induction false} TotalRemove(s: Splits, k: string)
    requires k in s
    ensures Total(s) == Contribution(s[k]) + Total(s - {k})
    decreases |s|
  {
    var j :| j in s && Total(s) == Contribution(s[j]) + Total(s - {j});
    if j != k {
      assert k in s - {j};
      assert j in s - {k};
      TotalRemove(s - {j}, k);
      TotalRemove(s - {k}, j);
      assert s - {j} - {k} == s - {k} - {j};
    }
  }

  /** With no negative entry the total is non-negative and no entry exceeds
      it, so a split that totals 100 has every share between 0 and 100. */
  lemma {:induction false} TotalBounds(s: Splits)
    requires forall k :: k in s ==> Contribution(s[k]) >= 0.0
    ensures Total(s) >= 0.0
    ensures forall k :: k in s ==> Contribution(s[k]) <= Total(s)
    decreases |s|
  {
    if s != map[] {
      var j :| j in s;
      TotalRemove(s, j);
      TotalBounds(s - {j});
      forall k | k in s ensures Contribution(s[k]) <= Total(s) {
        if k != j {
          assert k in s - {j};
        }
      }
    }
  }

  /** Overwriting or adding one entry changes the total by the difference of
      the two contributions. */
  lemma TotalUpdate(s: Splits, k: string, e: Entry)
    ensures Total(s[k := e]) == Total(s) - (if k in s then Contribution(s[k]) else 0.0) + Contribution(e)
  {
    TotalRemove(s[k := e], k);
    assert s[k := e] - {k} == s - {k};
    if k in s {
      TotalRemove(s, k);
    } else {
      assert s - {k} == s;
    }
  }

  /** Two maps with the same people and the same contributions have the same total. */
  lemma {:induction false} TotalCongruent(s: Splits, t: Splits)
    requires s.Keys == t.Keys
    requires forall k :: k in s ==> Contribution(s[k]) == Contribution(t[k])
    ensures Total(s) == Total(t)
    decreases |s|
  {
    if s != map[] {
      var k :| k in s;
      TotalRemove(s, k);
      TotalRemove(t, k);
      TotalCongruent(s - {k}, t - {k});
    } else {
      assert t == map[];
    }
  }

  /** The reduce of `calculateTotal`, one entry at a time. */
  method SumPercentages(s: Splits) returns (total: real)
    ensures total == Total(s)
  {
    total := 0.0;
    var rest := s;
    while rest != map[]
      invariant total + Total(rest) == Total(s)
      decreases |rest|
    {
      var k :| k in rest;
      TotalRemove(rest, k);
      total := total + Contribution(rest[k]);
      rest := rest - {k};
    }
  }

  /** The error message for a total. */
  function ErrorFor(total: real): (msg: string)
    ensures msg != "" <==> total != 100.0
    ensures msg != "" ==> msg == TotalError
  {
    if total != 100.0 then TotalError else ""
  }

  /** A selected person's initial entry, `currentSplits[person] || 0`. A
      missing entry, the number 0 and the empty string are falsy and become 0;
      a zero string such as "0" is kept; either way the entry reads as
      Some(0.0). An unparseable entry is the number input's empty string,
      so None also becomes Some(0.0). Any other entry is kept. */
  function Seeded(current: Splits, person: string): (e: Entry)
    ensures e.Some?
    ensures Contribution(e) == if person in current then Contribution(current[person]) else 0.0
    ensures person in current && current[person].Some? && current[person].value != 0.0 ==> e == current[person]
  {
    if person in current && current[person].Some? && current[person].value != 0.0
    then current[person]
    else Some(0.0)
  }

  /** The map the opening effect builds with `forEach` over the selected people. */
  function InitialSplits(selected: seq<string>, current: Splits): (m: Splits)
    ensures m.Keys == set p | p in selected
    ensures forall p :: p in m ==> m[p] == Seeded(current, p)
  {
    if selected == [] then map[]
    else
      var last := selected[|selected| - 1];
      var init := selected[..|selected| - 1];
      assert selected == init + [last];
      InitialSplits(init, current)[last := Seeded(current, last)]
  }

  /** Reopening the editor on a saved split for the same people shows the
      saved total again. */
  lemma ReopenKeepsTotal(selected: seq<string>, current: Splits)
    requires (set p | p in selected) == current.Keys
    ensures Total(InitialSplits(selected, current)) == Total(current)
  {
    TotalCongruent(InitialSplits(selected, current), current);
  }

  /** The save guard looks only at the sum: 60 and 39 are refused, while 60
      and 40, or even 150 and -50, are accepted. */
  lemma GuardChecksOnlySum()
    ensures Total(map["Alice" := Some(60.0), "Bob" := Some(39.0)]) == 99.0
    ensures Total(map["Alice" := Some(60.0), "Bob" := Some(40.0)]) == 100.0
    ensures Total(map["Alice" := Some(150.0), "Bob" := Some(-50.0)]) == 100.0
  {
    TotalUpdate(map[], "Bob", Some(39.0));
    TotalUpdate(map["Bob" := Some(39.0)], "Alice", Some(60.0));
    assert map["Bob" := Some(39.0)]["Alice" := Some(60.0)] == map["Alice" := Some(60.0), "Bob" := Some(39.0)];
    TotalUpdate(map[], "Bob", Some(40.0));
    TotalUpdate(map["Bob" := Some(40.0)], "Alice", Some(60.0));
    assert map["Bob" := Some(40.0)]["Alice" := Some(60.0)] == map["Alice" := Some(60.0), "Bob" := Some(40.0)];
    TotalUpdate(map[], "Bob", Some(-50.0));
    TotalUpdate(map["Bob" := Some(-50.0)], "Alice", Some(150.0));
    assert map["Bob" := Some(-50.0)]["Alice" := Some(150.0)] == map["Alice" := Some(150.0), "Bob" := Some(-50.0)];
  }

  /** What the save button does: forward the splits to `onSave` and close,
      or nothing. */
  datatype SaveOutcome = Saved(splits: Splits) | Rejected

  /** The editor's state: the splits being edited, their total and the error
      message on display. */
  class Dialogue {
    var splits: Splits
    var totalPercentage: real
    var error: string

    /** The displayed total is the total of the displayed splits. */
    ghost predicate Valid()
      reads this
    {
      totalPercentage == Total(splits)
    }

    /** A freshly mounted editor, before the opening effect: no entries, a
        total of 0 and no message. */
    constructor ()
      ensures splits == map[] && totalPercentage == 0.0 && error == ""
      ensures Valid()
    {
      splits := map[];
      totalPercentage := 0.0;
      error := "";
    }

    /** `calculateTotal`: recompute the total of `s` and the message from it. */
    method CalculateTotal(s: Splits)
      modifies this`totalPercentage, this`error
      ensures totalPercentage == Total(s)
      ensures error == ErrorFor(totalPercentage)
      ensures error != "" <==> totalPercentage != 100.0
    {
      var total := SumPercentages(s);
      totalPercentage := total;
      error := ErrorFor(total);
    }

    /** The opening effect. `peoplePresent` and `currentSplits` stand for the
        two props it tests; when either is missing nothing changes. */
    method Initialise(peoplePresent: bool, currentSplits: Option<Splits>, selectedPeople: seq<string>)
      modifies this
      ensures peoplePresent && currentSplits.Some? ==>
                && splits == InitialSplits(selectedPeople, currentSplits.value)
                && splits.Keys == (set p | p in selectedPeople)
                && totalPercentage == Total(splits)
                && error == ErrorFor(totalPercentage)
      ensures !(peoplePresent && currentSplits.Some?) ==>
                splits == old(splits) && totalPercentage == old(totalPercentage) && error == old(error)
      ensures old(Valid()) ==> Valid()
    {
      if peoplePresent && currentSplits.Some? {
        var initial := InitialSplits(selectedPeople, currentSplits.value);
        splits := initial;
        CalculateTotal(initial);
      }
    }

    /** An edit of one person's input: that entry is overwritten, every other
        entry is kept, and the total and message are recomputed. */
    method HandleSplitChange(person: string, value: Entry)
      modifies this
      ensures splits == old(splits)[person := value]
      ensures forall q :: q in old(splits) && q != person ==> q in splits && splits[q] == old(splits)[q]
      ensures Valid()
      ensures error == ErrorFor(totalPercentage)
      ensures old(Valid()) ==>
                totalPercentage == old(totalPercentage)
                                   - (if person in old(splits) then Contribution(old(splits)[person]) else 0.0)
                                   + Contribution(value)
    {
      var newSplits := splits[person := value];
      TotalUpdate(splits, person, value);
      splits := newSplits;
      CalculateTotal(newSplits);
    }

    /** The save button's `disabled` attribute: once the message has been
        computed, the button is disabled exactly while the message shows, and
        in a consistent editor exactly while the entries do not add up to 100. */
    function SaveDisabled(): (r: bool)
      reads this
      ensures error == ErrorFor(totalPercentage) ==> (r <==> error != "")
      ensures Valid() ==> (r <==> Total(splits) != 100.0)
    {
      totalPercentage != 100.0
    }

    /** The save handler: the splits are forwarded, and the editor closes,
        exactly when the displayed total is 100, which is exactly when the
        button is enabled. */
    method HandleSave() returns (outcome: SaveOutcome)
      ensures outcome.Saved? <==> totalPercentage == 100.0
      ensures outcome.Saved? ==> outcome.splits == splits
      ensures outcome.Rejected? <==> SaveDisabled()
      ensures Valid() ==> (outcome.Saved? <==> Total(splits) == 100.0)
    {
      if totalPercentage == 100.0 {
        outcome := Saved(splits);
      } else {
        outcome := Rejected;
      }
    }
  }

  /** A client: a split saved as 60/40 reopens at 100% and can be saved
      again; lowering one share to 39 disables the save. */
  method ReopenAndEdit()
  {
    var saved: Splits := map["Alice" := Some(60.0), "Bob" := Some(40.0)];
    var d := new Dialogue();
    assert (set p | p in ["Alice", "Bob"]) == saved.Keys;
    d.Initialise(true, Some(saved), ["Alice", "Bob"]);
    ReopenKeepsTotal(["Alice", "Bob"], saved);
    GuardChecksOnlySum();
    var outcome := d.HandleSave();
    assert outcome.Saved?;
    d.HandleSplitChange("Bob", Some(39.0));
    assert d.totalPercentage == 99.0;
    assert d.error == TotalError;
    outcome := d.HandleSave();
    assert outcome == Rejected;
  }
}
