/** Specifications of the three read-only traversals of the store: the
    name search, the per-group statistics and the rows of the CSV export.
    Each is a function of the key order and the records. */
module Reports {
  import opened Wrappers
  import opened Text
  import opened Records
  import opened KeyOrder

  // ---------------------------------------------------------------------
  // Search
  // ---------------------------------------------------------------------

  /** The names whose lower-cased form contains `term`, in the order given. */
  function MatchingNames(names: seq<string>, term: string): seq<string>
  {
    if names == [] then []
    else
      var last := names[|names| - 1];
      MatchingNames(names[..|names| - 1], term) + (if Contains(Lower(last), term) then [last] else [])
  }

  /** A name is found exactly when it is one of `names` and its lower-cased
      form contains `term` as a substring. */
  lemma {:induction false} MatchingNamesMembers(names: seq<string>, term: string)
    ensures forall n :: n in MatchingNames(names, term) <==> n in names && IsSubstring(term, Lower(n))
  {
    if names != [] {
      var init, last := names[..|names| - 1], names[|names| - 1];
      MatchingNamesMembers(init, term);
      ContainsIsSubstring(Lower(last), term);
      assert names == init + [last];
    }
  }

  /** The search is a filter: it distributes over concatenation, so the
      matches keep the order of `names`. */
  lemma {:induction false} MatchingNamesAppend(a: seq<string>, b: seq<string>, term: string)
    ensures MatchingNames(a + b, term) == MatchingNames(a, term) + MatchingNames(b, term)
  {
    if b != [] {
      var init := b[..|b| - 1];
      assert (a + b)[..|a + b| - 1] == a + init;
      MatchingNamesAppend(a, init, term);
    } else {
      assert a + b == a;
    }
  }

  /** The matches of distinct names are distinct. */
  lemma {:induction false} MatchingNamesDistinct(names: seq<string>, term: string)
    requires Distinct(names)
    ensures Distinct(MatchingNames(names, term))
  {
    if names != [] {
      var init, last := names[..|names| - 1], names[|names| - 1];
      MatchingNamesDistinct(init, term);
      MatchingNamesMembers(init, term);
      assert last !in init;
    }
  }

  // ---------------------------------------------------------------------
  // Statistics
  // ---------------------------------------------------------------------

  /** The `groups` dict of `show_statistics`: a count per group, and the
      groups in the order they were first met. */
  datatype GroupTally = GroupTally(counts: map<string, nat>, groups: seq<string>)

  /** The tally after visiting `names` in order. */
  function Tally(names: seq<string>, contacts: map<string, Contact>): GroupTally
    requires forall k :: 0 <= k < |names| ==> names[k] in contacts
  {
    if names == [] then GroupTally(map[], [])
    else
      var t := Tally(names[..|names| - 1], contacts);
      var grp := contacts[names[|names| - 1]].group;
      if grp in t.counts then GroupTally(t.counts[grp := t.counts[grp] + 1], t.groups)
      else GroupTally(t.counts[grp := 1], t.groups + [grp])
  }

  /** A store of one contact tallies one member of that contact's group. */
  lemma TallyOne(name: string, c: Contact)
    ensures Tally([name], map[name := c]) == GroupTally(map[c.group := 1], [c.group])
  {
    assert [name][..0] == [];
  }

  /** The groups listed are exactly the counted ones, each listed once. */
  lemma {:induction false} TallyShape(names: seq<string>, contacts: map<string, Contact>)
    requires forall k :: 0 <= k < |names| ==> names[k] in contacts
    ensures forall g :: g in Tally(names, contacts).counts <==> g in Tally(names, contacts).groups
    ensures Distinct(Tally(names, contacts).groups)
  {
    if names != [] {
      TallyShape(names[..|names| - 1], contacts);
    }
  }

  /** The names among `names` whose record has group `grp`. */
  ghost function Members(names: seq<string>, contacts: map<string, Contact>, grp: string): set<string> {
    set n | n in names && n in contacts && contacts[n].group == grp
  }

  /** Visiting one more name adds it to the members of its own group only. */
  lemma MembersStep(names: seq<string>, contacts: map<string, Contact>, grp: string)
    requires names != [] && names[|names| - 1] in contacts
    ensures var last := names[|names| - 1];
            Members(names, contacts, grp) ==
            Members(names[..|names| - 1], contacts, grp) + (if contacts[last].group == grp then {last} else {})
  {
    assert names == names[..|names| - 1] + [names[|names| - 1]];
  }

  /** The count of a group, zero when it is not counted. */
  function CountOf(counts: map<string, nat>, g: string): nat {
    if g in counts then counts[g] else 0
  }

  /** The sum of the counts of `groups`. */
  function SumCounts(groups: seq<string>, counts: map<string, nat>): nat {
    if groups == [] then 0
    else SumCounts(groups[..|groups| - 1], counts) + CountOf(counts, groups[|groups| - 1])
  }

  /** A group is counted exactly when some visited record has it. */
  lemma {:induction false} TallyGroups(names: seq<string>, contacts: map<string, Contact>)
    requires forall k :: 0 <= k < |names| ==> names[k] in contacts
    ensures forall g :: g in Tally(names, contacts).counts <==> Members(names, contacts, g) != {}
  {
    if names != [] {
      TallyGroups(names[..|names| - 1], contacts);
      forall g {
        MembersStep(names, contacts, g);
      }
    }
  }

  /** Each count is the number of visited records with that group (the
      names being distinct). */
  lemma {:induction false} TallyCounts(names: seq<string>, contacts: map<string, Contact>)
    requires forall k :: 0 <= k < |names| ==> names[k] in contacts
    requires Distinct(names)
    ensures forall g :: g in Tally(names, contacts).counts ==>
              Tally(names, contacts).counts[g] == |Members(names, contacts, g)|
  {
    if names != [] {
      var init := names[..|names| - 1];
      TallyCounts(init, contacts);
      TallyGroups(init, contacts);
      forall g | g in Tally(names, contacts).counts
        ensures Tally(names, contacts).counts[g] == |Members(names, contacts, g)|
      {
        TallyCountStep(names, contacts, g);
      }
    }
  }

  /** One step of `TallyCounts`, for one group. */
  lemma TallyCountStep(names: seq<string>, contacts: map<string, Contact>, g: string)
    requires forall k :: 0 <= k < |names| ==> names[k] in contacts
    requires names != [] && Distinct(names)
    requires var t := Tally(names[..|names| - 1], contacts);
             (g in t.counts <==> Members(names[..|names| - 1], contacts, g) != {}) &&
             (g in t.counts ==> t.counts[g] == |Members(names[..|names| - 1], contacts, g)|)
    requires g in Tally(names, contacts).counts
    ensures Tally(names, contacts).counts[g] == |Members(names, contacts, g)|
  {
    var init, last := names[..|names| - 1], names[|names| - 1];
    assert last !in init;
    MembersStep(names, contacts, g);
  }

  /** Changing the count of a group that is not listed leaves the sum alone. */
  lemma {:induction false} SumCountsFrame(groups: seq<string>, counts: map<string, nat>, g: string, v: nat)
    requires g !in groups
    ensures SumCounts(groups, counts[g := v]) == SumCounts(groups, counts)
  {
    if groups != [] {
      SumCountsFrame(groups[..|groups| - 1], counts, g, v);
    }
  }

  /** Raising by one the count of a group listed once raises the sum by one. */
  lemma {:induction false} SumCountsBump(groups: seq<string>, counts: map<string, nat>, g: string)
    requires Distinct(groups) && g in groups && g in counts
    ensures SumCounts(groups, counts[g := counts[g] + 1]) == SumCounts(groups, counts) + 1
  {
    var init, last := groups[..|groups| - 1], groups[|groups| - 1];
    if last == g {
      assert g !in init;
      SumCountsFrame(init, counts, g, counts[g] + 1);
    } else {
      SumCountsBump(init, counts, g);
    }
  }

  /** The counts add up to the number of names visited. */
  lemma {:induction false} TallySum(names: seq<string>, contacts: map<string, Contact>)
    requires forall k :: 0 <= k < |names| ==> names[k] in contacts
    ensures SumCounts(Tally(names, contacts).groups, Tally(names, contacts).counts) == |names|
  {
    if names != [] {
      var init := names[..|names| - 1];
      var t := Tally(init, contacts);
      var grp := contacts[names[|names| - 1]].group;
      TallySum(init, contacts);
      TallyShape(init, contacts);
      if grp in t.counts {
        SumCountsBump(t.groups, t.counts, grp);
      } else {
        var groups := t.groups + [grp];
        assert groups[..|groups| - 1] == t.groups;
        SumCountsFrame(t.groups, t.counts, grp, 1);
      }
    }
  }

  /** Some name before position `q` of `names` has a record in group `g`. */
  ghost predicate SeenBefore(names: seq<string>, contacts: map<string, Contact>, g: string, q: int) {
    exists p :: 0 <= p < q && p < |names| && names[p] in contacts && contacts[names[p]].group == g
  }

  /** A counted group is the group of some visited name. */
  lemma CountedIsSeen(names: seq<string>, contacts: map<string, Contact>, g: string)
    requires forall k :: 0 <= k < |names| ==> names[k] in contacts
    requires g in Tally(names, contacts).counts
    ensures SeenBefore(names, contacts, g, |names|)
  {
    TallyGroups(names, contacts);
    var n :| n in Members(names, contacts, g);
    var p :| 0 <= p < |names| && names[p] == n;
    assert names[p] in contacts && contacts[names[p]].group == g;
  }

  /** The groups `gs` are listed in the order they are first met in
      `names`: every name of a later-listed group comes after some name of
      each earlier-listed one. */
  ghost predicate FirstSeenOrder(names: seq<string>, contacts: map<string, Contact>, gs: seq<string>) {
    forall i, j, q ::
      (0 <= i < j < |gs| && 0 <= q < |names| && names[q] in contacts && contacts[names[q]].group == gs[j]) ==>
      SeenBefore(names, contacts, gs[i], q)
  }

  /** The tally lists its groups in the order they are first met, which is
      the order in which `show_statistics` prints them. */
  lemma {:induction false} TallyOrder(names: seq<string>, contacts: map<string, Contact>)
    requires forall k :: 0 <= k < |names| ==> names[k] in contacts
    ensures FirstSeenOrder(names, contacts, Tally(names, contacts).groups)
  {
    if names != [] {
      var init, last := names[..|names| - 1], names[|names| - 1];
      var t := Tally(init, contacts);
      var grp := contacts[last].group;
      TallyOrder(init, contacts);
      TallyShape(init, contacts);
      var gs := Tally(names, contacts).groups;
      forall i, j, q | 0 <= i < j < |gs| && 0 <= q < |names| && names[q] in contacts &&
                       contacts[names[q]].group == gs[j]
        ensures SeenBefore(names, contacts, gs[i], q)
      {
        if grp in t.counts || j < |t.groups| {
          OrderStepOld(names, contacts, i, j, q);
        } else {
          OrderStepNew(names, contacts, i, q);
        }
      }
    }
  }

  /** A step of `TallyOrder` where the later group was already listed. */
  lemma OrderStepOld(names: seq<string>, contacts: map<string, Contact>, i: int, j: int, q: int)
    requires forall k :: 0 <= k < |names| ==> names[k] in contacts
    requires names != []
    requires var t := Tally(names[..|names| - 1], contacts);
             FirstSeenOrder(names[..|names| - 1], contacts, t.groups) &&
             (forall g :: g in t.counts <==> g in t.groups) &&
             0 <= i < j < |t.groups| &&
             (contacts[names[|names| - 1]].group in t.counts || j < |t.groups|)
    requires 0 <= q < |names| && contacts[names[q]].group == Tally(names[..|names| - 1], contacts).groups[j]
    ensures SeenBefore(names, contacts, Tally(names[..|names| - 1], contacts).groups[i], q)
  {
    var init := names[..|names| - 1];
    var t := Tally(init, contacts);
    var gi, gj := t.groups[i], t.groups[j];
    if q == |init| {
      CountedIsSeen(init, contacts, gj);
      var q' :| 0 <= q' < |init| && init[q'] in contacts && contacts[init[q']].group == gj;
      assert SeenBefore(init, contacts, gi, q');
      var p :| 0 <= p < q' && p < |init| && init[p] in contacts && contacts[init[p]].group == gi;
      assert SeenBefore(init, contacts, gi, q);
    } else {
      assert init[q] == names[q];
      assert SeenBefore(init, contacts, gi, q);
    }
    SeenInPrefix(names, contacts, gi, q);
  }

  /** A name seen in a prefix is seen in the whole sequence. */
  lemma SeenInPrefix(names: seq<string>, contacts: map<string, Contact>, g: string, q: int)
    requires names != [] && SeenBefore(names[..|names| - 1], contacts, g, q)
    ensures SeenBefore(names, contacts, g, q)
  {
    var init := names[..|names| - 1];
    var p :| 0 <= p < q && p < |init| && init[p] in contacts && contacts[init[p]].group == g;
    assert names[p] == init[p];
  }

  /** A step of `TallyOrder` where the later group is the one just listed. */
  lemma OrderStepNew(names: seq<string>, contacts: map<string, Contact>, i: int, q: int)
    requires forall k :: 0 <= k < |names| ==> names[k] in contacts
    requires names != []
    requires var t := Tally(names[..|names| - 1], contacts);
             (forall g :: g in t.counts <==> g in t.groups) &&
             0 <= i < |t.groups| && contacts[names[|names| - 1]].group !in t.counts
    requires 0 <= q < |names| && contacts[names[q]].group == contacts[names[|names| - 1]].group
    ensures SeenBefore(names, contacts, Tally(names[..|names| - 1], contacts).groups[i], q)
  {
    var init, last := names[..|names| - 1], names[|names| - 1];
    var t := Tally(init, contacts);
    var grp, gi := contacts[last].group, t.groups[i];
    TallyGroups(init, contacts);
    assert Members(init, contacts, grp) == {};
    forall q0 | 0 <= q0 < |init| ensures contacts[names[q0]].group != grp {
      assert init[q0] == names[q0] && init[q0] in init;
      assert init[q0] !in Members(init, contacts, grp);
    }
    CountedIsSeen(init, contacts, gi);
    var p :| 0 <= p < |init| && init[p] in contacts && contacts[init[p]].group == gi;
    assert names[p] == init[p];
  }

  /** The names of the store whose record has group `grp`. */
  ghost function GroupOf(contacts: map<string, Contact>, grp: string): set<string> {
    set n | n in contacts && contacts[n].group == grp
  }

  /** Visiting the whole store, in its key order: each group of the store is
      listed once, in the order first met, with the number of its records,
      and the counts add up to the number of records. */
  lemma StoreStatistics(order: seq<string>, contacts: map<string, Contact>)
    requires ListsExactly(order, contacts.Keys)
    ensures var t := Tally(order, contacts);
            && (forall g :: g in t.counts <==> g in t.groups)
            && Distinct(t.groups)
            && (forall g :: g in t.counts <==> GroupOf(contacts, g) != {})
            && (forall g :: g in t.counts ==> t.counts[g] == |GroupOf(contacts, g)|)
            && SumCounts(t.groups, t.counts) == |contacts|
            && FirstSeenOrder(order, contacts, t.groups)
  {
    TallyShape(order, contacts);
    TallyOrder(order, contacts);
    TallyGroups(order, contacts);
    TallyCounts(order, contacts);
    TallySum(order, contacts);
    KeysCardinality(order, contacts);
    forall g ensures Members(order, contacts, g) == GroupOf(contacts, g) {
      assert forall n :: n in contacts ==> n in order;
    }
  }

  // ---------------------------------------------------------------------
  // CSV export
  // ---------------------------------------------------------------------

  /** A row of cells as handed to `csv.writer.writerow`; `None` is a
      missing optional field. */
  type Row = seq<Option<string>>

  /** The header row. */
  const Header: Row := [Some("Name"), Some("Phone"), Some("Email"), Some("Address"), Some("Group")]

  /** The data row of one contact. */
  function ContactRow(name: string, c: Contact): (r: Row)
    ensures |r| == |Header|
    ensures r[0] == Some(name) && r[1] == Some(c.phone) && r[2] == c.email
    ensures r[3] == c.address && r[4] == Some(c.group)
  {
    [Some(name), Some(c.phone), c.email, c.address, Some(c.group)]
  }

  /** The rows built from a store in its key order have five cells each,
      and their name column lists every name of the store, once. */
  lemma ExportCoversStore(rows: seq<Row>, order: seq<string>, contacts: map<string, Contact>)
    requires ListsExactly(order, contacts.Keys)
    requires |rows| == |order| + 1 && rows[0] == Header
    requires forall k :: 0 <= k < |order| ==> rows[k + 1] == ContactRow(order[k], contacts[order[k]])
    ensures forall k :: 1 <= k < |rows| ==> |rows[k]| == |Header|
    ensures forall n :: n in contacts <==> exists k :: 1 <= k < |rows| && rows[k][0] == Some(n)
    ensures forall j, k :: 1 <= j < k < |rows| ==> rows[j][0] != rows[k][0]
  {
    forall k | 1 <= k < |rows| ensures |rows[k]| == |Header| && rows[k][0] == Some(order[k - 1]) {
      assert rows[(k - 1) + 1] == ContactRow(order[k - 1], contacts[order[k - 1]]);
    }
    forall n | n in contacts
      ensures exists k :: 1 <= k < |rows| && rows[k][0] == Some(n)
    {
      var k :| 0 <= k < |order| && order[k] == n;
      assert rows[k + 1][0] == Some(n);
    }
  }
}
