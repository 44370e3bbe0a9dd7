/**
 * The eleven-position sample chart of the component's example page, and
 * the forest and drawing the model gives for it. Object `k` is the record
 * at position `k`, so the position with id "1" is object 0.
 */
module OrgChartSample {
  import opened Wrappers
  import opened Schema
  import opened OrgChart
  import opened OrgChartView

  function Sample(): seq<OrgNode> {
    [ OrgNode("1", "Mansoor Ahmad", "CEO", None),
      OrgNode("2", "Bashart Gill", "HRO", Some("1")),
      OrgNode("3", "Dr Mudasar Hussain", "Pathologist", Some("1")),
      OrgNode("4", "Danish Gill", "Lab Manager", Some("2")),
      OrgNode("5", "Muhammad Waseem", "Account Manager", Some("2")),
      OrgNode("6", "Moon Anwar", "Lab Technologist", Some("3")),
      OrgNode("7", "Mudasir", "Senior Technician", Some("4")),
      OrgNode("8", "Muhammad Adeel", "Jr Lab Technician", Some("4")),
      OrgNode("9", "Saba Noor", "Lab Assistant", Some("5")),
      OrgNode("10", "Sahar Nasir", "Lab Technician", Some("6")),
      OrgNode("11", "Bisma", "Phlebotomist", Some("6")) ]
  }

  /** The expected children of each object: 1 under 0, 2 and the rest as the sample's parent ids say. */
  function SampleChildren(): seq<seq<nat>> {
    [[1, 2], [3, 4], [5], [6, 7], [8], [9, 10], [], [], [], [], []]
  }

  /** The height of each object's subtree. */
  function SampleRank(): map<nat, nat> {
    map k: nat | k < 11 :: [3, 2, 2, 1, 1, 1, 0, 0, 0, 0, 0][k]
  }

  /** Two strictly increasing sequences with the same members are equal. */
  lemma {:induction false} SameIncreasing(s: seq<nat>, t: seq<nat>)
    requires StrictlyIncreasing(s) && StrictlyIncreasing(t)
    requires forall x: nat :: x in s <==> x in t
    ensures s == t
    decreases |s|
  {
    BothEmptyOrNeither(s, t);
    if s != [] {
      assert s[0] in t && t[0] in s;
      var j :| 0 <= j < |t| && t[j] == s[0];
      var i :| 0 <= i < |s| && s[i] == t[0];
      assert t[0] <= t[j] && s[0] <= s[i];
      forall x: nat ensures x in s[1..] <==> x in t[1..] {
        if x in s[1..] {
          var i :| 1 <= i < |s| && s[i] == x;
          assert x != s[0] && x in t;
          var j :| 0 <= j < |t| && t[j] == x;
          assert t[1..][j - 1] == x;
        }
        if x in t[1..] {
          var j :| 1 <= j < |t| && t[j] == x;
          assert x != t[0] && x in s;
          var i :| 0 <= i < |s| && s[i] == x;
          assert s[1..][i - 1] == x;
        }
      }
      SameIncreasing(s[1..], t[1..]);
    }
  }

  /** Sequences with the same members are both empty or both not. */
  lemma BothEmptyOrNeither(s: seq<nat>, t: seq<nat>)
    requires forall x: nat :: x in s <==> x in t
    ensures s == [] <==> t == []
  {
    if s != [] { assert s[0] in t; }
    if t != [] { assert t[0] in s; }
  }

  lemma SampleUniqueIds()
    ensures UniqueIds(Sample())
  {
  }

  /** Every parent id of the sample names a position of the sample. */
  lemma SampleParentsPresent()
    ensures forall x :: 1 <= x < |Sample()| ==> Truthy(Sample()[x].parentId) && Sample()[x].parentId.value in Ids(Sample())
  {
    var n := Sample();
    assert n[0].id == "1" && n[1].id == "2" && n[2].id == "3" && n[3].id == "4";
    assert n[4].id == "5" && n[5].id == "6";
  }

  /** The sample's only root is the CEO. */
  lemma SampleRoots()
    ensures Build(Sample()).roots == [0]
  {
    var n := Sample();
    SampleUniqueIds();
    RootsAreRootRecordsInOrder(n);
    SampleParentsPresent();
    assert IsRootRecord(n, 0);
    SameIncreasing(Build(n).roots, [0]);
  }

  /** The children of object `p` are the records that name it, in input order. */
  lemma SampleChildrenOf(p: nat)
    requires p < 11
    ensures Build(Sample()).children[p] == SampleChildren()[p]
  {
    var n := Sample();
    SampleUniqueIds();
    ChildrenAreNamingRecordsInOrder(n, p);
    var want := SampleChildren()[p];
    forall x: nat ensures x in Build(n).children[p] <==> x in want {
      if x < |n| {
        assert NamesParent(n, x, p) <==> x in want;
      }
    }
    SameIncreasing(Build(n).children[p], want);
  }

  /** `buildTree` on the sample: one root, and the children lists of the example page. */
  lemma SampleForest()
    ensures Build(Sample()) == Forest(Sample(), SampleChildren(), [0])
  {
    BuildWellFormed(Sample());
    SampleRoots();
    forall p | 0 <= p < 11 ensures Build(Sample()).children[p] == SampleChildren()[p] {
      SampleChildrenOf(p);
    }
  }

  /** The sample is ranked from 3 at the CEO down to 0, each child's rank below its parent's. */
  lemma SampleRanked()
    ensures Ranked(Build(Sample()), SampleRank())
  {
    var f := Build(Sample());
    var rank := SampleRank();
    BuildWellFormed(Sample());
    forall k | k in rank
      ensures k < |f.children| && forall j :: 0 <= j < |f.children[k]| ==>
        f.children[k][j] in rank && rank[f.children[k][j]] < rank[k]
    {
      SampleChildrenOf(k);
    }
  }

  /** With four stack frames the sample is drawn: one tree for the CEO, two children below it. */
  lemma SampleDrawn(sel: Option<string>)
    ensures Page(Sample(), sel, 4).Chart?
    ensures var trees := Page(Sample(), sel, 4).trees;
      && |trees| == 1
      && trees[0].node.id == "1" && trees[0].level == 0
      && (trees[0].selected <==> sel == Some("1"))
      && trees[0].connector == ConnectorFor(2)
      && |trees[0].kids| == 2
  {
    SampleForest();
    SampleRanked();
    RankedPageRenders(Sample(), sel, SampleRank(), 4);
  }

  /** Under the CEO, `Dr Mudasar Hussain` has one child and gets a centred row without a bar. */
  lemma SamplePathologistRow(sel: Option<string>)
    ensures var f := Build(Sample());
      WellFormed(f) && Render(f, sel, 2, 1, 3).Some? &&
      var v := Render(f, sel, 2, 1, 3).value;
      v.node.title == "Pathologist" && v.level == 1 && |v.kids| == 1
      && v.connector == Connector(true, None, Some(Center))
  {
    var f := Build(Sample());
    BuildWellFormed(Sample());
    SampleRanked();
    assert 2 in SampleRank() && SampleRank()[2] == 2;
    RankedRenders(f, sel, SampleRank(), 2, 1, 3);
    PathologistShape(sel);
  }

  lemma PathologistShape(sel: Option<string>)
    ensures var f := Build(Sample());
      WellFormed(f) && (Render(f, sel, 2, 1, 3).Some? ==>
      var v := Render(f, sel, 2, 1, 3).value;
      v.node.title == "Pathologist" && v.level == 1 && |v.kids| == 1
      && v.connector == Connector(true, None, Some(Center)))
  {
    BuildWellFormed(Sample());
    SampleChildrenOf(2);
  }
}
