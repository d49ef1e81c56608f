/** The bill-splitting page of walmart-bill-frontend/src/App.js: the items of
    an uploaded receipt, the people sharing the bill, and the table recording,
    for every item name, which people share that item. */
module App {
  import opened Wrappers

  /** A receipt line as the upload response delivers it. */
  datatype Item = Item(name: string, cost: real)

  /** What the upload handler reports to the user. */
  datatype UploadOutcome =
    | NoFile   // no file chosen: "Please upload a PDF file"
    | Failed   // the request failed: "Failed to process the PDF"
    | Loaded

  /** The distinct names of a list of items. */
  function ItemNames(items: seq<Item>): set<string>
  {
    set it | it in items :: it.name
  }

  lemma ItemNamesSnoc(items: seq<Item>, it: Item)
    ensures ItemNames(items + [it]) == ItemNames(items) + {it.name}
  {
    assert forall x :: x in items + [it] <==> x in items || x == it;
  }

  /** No two items carry the same name. */
  ghost predicate DistinctNames(items: seq<Item>)
  {
    forall i, j :: 0 <= i < j < |items| ==> items[i].name != items[j].name
  }

  /** No person occurs twice in a list. */
  ghost predicate NoDuplicates(list: seq<string>)
  {
    forall i, j :: 0 <= i < j < |list| ==> list[i] != list[j]
  }

  /** The assignment table built after an upload: the reduce over the items
      sets every item name to an empty list, later items overwriting earlier
      ones of the same name. */
  method InitialAssignments(items: seq<Item>) returns (m: map<string, seq<string>>)
    ensures m.Keys == ItemNames(items)
    ensures forall n :: n in m ==> m[n] == []
  {
    m := map[];
    for i := 0 to |items|
      invariant m.Keys == ItemNames(items[..i])
      invariant forall n :: n in m ==> m[n] == []
    {
      assert items[..i + 1] == items[..i] + [items[i]];
      ItemNamesSnoc(items[..i], items[i]);
      m := m[items[i].name := []];
    }
    assert items[..|items|] == items;
  }

  /** Items with the same name share one key: the table has at most one key
      per item, and exactly one per item when the names are distinct. */
  lemma {:induction false} DuplicateNamesCollapse(items: seq<Item>)
    ensures |ItemNames(items)| <= |items|
    ensures |ItemNames(items)| == |items| <==> DistinctNames(items)
  {
    if items != [] {
      var init, last := items[..|items| - 1], items[|items| - 1];
      assert items == init + [last];
      DuplicateNamesCollapse(init);
      ItemNamesSnoc(init, last);
      if last.name in ItemNames(init) {
        var it :| it in init && it.name == last.name;
        var i :| 0 <= i < |init| && init[i] == it;
        assert items[i].name == items[|items| - 1].name;
        assert !DistinctNames(items);
      } else {
        assert DistinctNames(items) <==> DistinctNames(init) by {
          if DistinctNames(init) {
            forall i, j | 0 <= i < j < |items| ensures items[i].name != items[j].name {
              if j == |items| - 1 {
                assert items[i] in init;
              }
            }
          }
        }
      }
    }
  }

  /** The list `filter(p => p !== person)` returns: every occurrence of
      person dropped, every other entry kept. */
  function RemoveAll(list: seq<string>, person: string): (r: seq<string>)
    ensures forall x :: multiset(r)[x] == if x == person then 0 else multiset(list)[x]
  {
    if list == [] then []
    else
      assert list == [list[0]] + list[1..];
      if list[0] == person then RemoveAll(list[1..], person)
      else [list[0]] + RemoveAll(list[1..], person)
  }

  /** Filtering distributes over concatenation, so the entries RemoveAll
      keeps stay in their original order. */
  lemma {:induction false} RemoveAllAppend(a: seq<string>, b: seq<string>, person: string)
    ensures RemoveAll(a + b, person) == RemoveAll(a, person) + RemoveAll(b, person)
  {
    if a == [] {
      assert a + b == b;
    } else {
      assert (a + b)[1..] == a[1..] + b;
      RemoveAllAppend(a[1..], b, person);
    }
  }

  /** Filtering out someone who is not there leaves the list as it was. */
  lemma {:induction false} RemoveAllAbsent(list: seq<string>, person: string)
    requires person !in list
    ensures RemoveAll(list, person) == list
  {
    if list != [] {
      assert person !in list[1..];
      RemoveAllAbsent(list[1..], person);
    }
  }

  /** Filtering keeps a duplicate-free list duplicate-free. */
  lemma {:induction false} RemoveAllKeepsNoDuplicates(list: seq<string>, person: string)
    requires NoDuplicates(list)
    ensures NoDuplicates(RemoveAll(list, person))
  {
    if list != [] {
      var tail := list[1..];
      assert NoDuplicates(tail) by {
        forall i, j | 0 <= i < j < |tail| ensures tail[i] != tail[j] {
          assert tail[i] == list[i + 1] && tail[j] == list[j + 1];
        }
      }
      RemoveAllKeepsNoDuplicates(tail, person);
      if list[0] != person {
        var rest := RemoveAll(tail, person);
        assert list[0] !in tail by {
          forall j | 0 <= j < |tail| ensures tail[j] != list[0] {
            assert tail[j] == list[j + 1];
          }
        }
        assert multiset(rest)[list[0]] == 0;
        assert list[0] !in rest;
        var r := [list[0]] + rest;
        forall i, j | 0 <= i < j < |r| ensures r[i] != r[j] {
          if i == 0 {
            assert r[j] == rest[j - 1];
          } else {
            assert r[i] == rest[i - 1] && r[j] == rest[j - 1];
          }
        }
      }
    }
  }

  /** What one click on a person's button does to an item's list: drop the
      person if present, append them at the end otherwise. */
  function Toggle(list: seq<string>, person: string): (r: seq<string>)
    ensures person in r <==> person !in list
    ensures forall x :: x != person ==> multiset(r)[x] == multiset(list)[x]
    ensures person in list ==> r == RemoveAll(list, person)
    ensures person !in list ==> r == list + [person]
  {
    if person in list then
      var r := RemoveAll(list, person);
      assert multiset(r)[person] == 0;
      r
    else list + [person]
  }

  /** Toggling keeps a duplicate-free list duplicate-free. */
  lemma ToggleKeepsNoDuplicates(list: seq<string>, person: string)
    requires NoDuplicates(list)
    ensures NoDuplicates(Toggle(list, person))
  {
    if person in list {
      RemoveAllKeepsNoDuplicates(list, person);
    } else {
      var r := list + [person];
      forall i, j | 0 <= i < j < |r| ensures r[i] != r[j] {
        if j == |list| {
          assert r[i] == list[i];
        }
      }
    }
  }

  /** Two clicks on the same button for a person who was not there: added,
      then removed again, restoring the list. */
  lemma ToggleTwiceAbsent(list: seq<string>, person: string)
    requires person !in list
    ensures Toggle(Toggle(list, person), person) == list
  {
    RemoveAllAppend(list, [person], person);
    RemoveAllAbsent(list, person);
    assert RemoveAll([person], person) == [];
  }

  /** Two clicks on the same button for a person who was there: removed
      everywhere, then appended at the end. */
  lemma ToggleTwicePresent(list: seq<string>, person: string)
    requires person in list
    ensures Toggle(Toggle(list, person), person) == RemoveAll(list, person) + [person]
  {
  }

  /** On a duplicate-free list containing the person, two clicks restore the
      list exactly when the person was its last entry. */
  lemma ToggleTwiceRestores(list: seq<string>, person: string)
    requires person in list && NoDuplicates(list)
    ensures Toggle(Toggle(list, person), person) == list <==> list[|list| - 1] == person
  {
    if list[|list| - 1] == person {
      var init := list[..|list| - 1];
      assert list == init + [person];
      assert person !in init by {
        forall i | 0 <= i < |init| ensures init[i] != person {
          assert init[i] == list[i];
        }
      }
      RemoveAllAppend(init, [person], person);
      RemoveAllAbsent(init, person);
      assert RemoveAll([person], person) == [];
    }
  }

  /** The page's state: the chosen file, the extracted items, the people and
      the assignment table from item names to the people sharing each. */
  class AppState {
    var pdfChosen: bool
    var items: seq<Item>
    var people: seq<string>
    var assignments: map<string, seq<string>>

    /** The table has one key per item name. */
    ghost predicate Valid()
      reads this
    {
      assignments.Keys == ItemNames(items)
    }

    /** No item's list names a person twice. */
    ghost predicate ListsDistinct()
      reads this
    {
      forall n :: n in assignments ==> NoDuplicates(assignments[n])
    }

    /** Everyone assigned to an item is one of the people. */
    ghost predicate AssignedArePeople()
      reads this
    {
      forall n, p :: n in assignments && p in assignments[n] ==> p in people
    }

    constructor ()
      ensures !pdfChosen && items == [] && people == [] && assignments == map[]
      ensures Valid() && ListsDistinct() && AssignedArePeople()
    {
      pdfChosen := false;
      items := [];
      people := [];
      assignments := map[];
    }

    /** The file input's change handler; its argument says whether a file was picked. */
    method ChooseFile(chosen: bool)
      modifies this`pdfChosen
      ensures pdfChosen == chosen
    {
      pdfChosen := chosen;
    }

    /** The upload handler; `response` is the items the server returned, or
        None when the request failed. */
    method Upload(response: Option<seq<Item>>) returns (outcome: UploadOutcome)
      modifies this`items, this`assignments
      ensures outcome == if !pdfChosen then NoFile else if response.None? then Failed else Loaded
      ensures outcome == Loaded ==> items == response.value
      ensures outcome == Loaded ==> assignments.Keys == ItemNames(items)
      ensures outcome == Loaded ==> forall n :: n in assignments ==> assignments[n] == []
      ensures outcome != Loaded ==> items == old(items) && assignments == old(assignments)
      ensures old(Valid()) ==> Valid()
      ensures outcome == Loaded ==> ListsDistinct() && AssignedArePeople()
    {
      if !pdfChosen {
        return NoFile;
      }
      if response.None? {
        return Failed;
      }
      items := response.value;
      assignments := InitialAssignments(items);
      outcome := Loaded;
    }

    /** The add-person handler; `name` is what the prompt returned, None when
        it was cancelled. Any non-empty name is appended, repeated or not. */
    method AddPerson(name: Option<string>)
      modifies this`people
      ensures people == if name.Some? && name.value != "" then old(people) + [name.value] else old(people)
      ensures old(AssignedArePeople()) ==> AssignedArePeople()
    {
      if name.Some? && name.value != "" {
        people := people + [name.value];
      }
    }

    /** Whether the person's button for the item shows as assigned. The
        optional chaining makes an unknown item name read as unassigned, and
        in a consistent page a green button belongs to a receipt item and to
        one of the people. */
    function IsAssigned(itemName: string, person: string): (r: bool)
      reads this
      ensures itemName !in assignments ==> !r
      ensures Valid() && r ==> itemName in ItemNames(items)
      ensures AssignedArePeople() && r ==> person in people
    {
      itemName in assignments && person in assignments[itemName]
    }

    /** A click on a person's button for an item. The item name must be a key
        of the table; for any other name the lookup of its list fails. */
    method AssignItem(itemName: string, person: string)
      requires itemName in assignments
      modifies this`assignments
      ensures assignments == old(assignments)[itemName := Toggle(old(assignments)[itemName], person)]
      ensures IsAssigned(itemName, person) == !old(IsAssigned(itemName, person))
      ensures forall n :: n in old(assignments) && n != itemName ==> assignments[n] == old(assignments)[n]
      ensures old(Valid()) ==> Valid()
      ensures old(ListsDistinct()) ==> ListsDistinct()
      ensures old(AssignedArePeople()) && person in people ==> AssignedArePeople()
    {
      var list := assignments[itemName];
      if person in list {
        assignments := assignments[itemName := RemoveAll(list, person)];
      } else {
        assignments := assignments[itemName := list + [person]];
      }
      if old(ListsDistinct()) {
        ToggleKeepsNoDuplicates(list, person);
      }
      if old(AssignedArePeople()) && person in people {
        forall n, p | n in assignments && p in assignments[n] ensures p in people {
          if n == itemName && p != person {
            assert multiset(assignments[n])[p] == multiset(list)[p];
          }
        }
      }
    }
  }

  /** A client: upload a receipt, add a person twice, and click the same
      button twice, which takes the person off the item again. */
  method UploadAndAssign()
  {
    var app := new AppState();
    app.ChooseFile(true);
    var coffee := Item("Coffee", 4.0);
    var outcome := app.Upload(Some([coffee, Item("Bagel", 3.0), coffee]));
    assert outcome == Loaded;
    assert "Coffee" in app.assignments by {
      assert app.items[0] == coffee;
    }
    app.AddPerson(Some("Alice"));
    app.AddPerson(None);
    app.AddPerson(Some("Alice"));
    assert app.people == ["Alice", "Alice"];
    app.AssignItem("Coffee", "Alice");
    assert app.assignments["Coffee"] == ["Alice"];
    app.AssignItem("Coffee", "Alice");
    ToggleTwiceAbsent([], "Alice");
    assert app.assignments["Coffee"] == [];
  }
}
