/** The configured activity hierarchy (`src/trackable.rs`): an activity is a
    leaf (name, WBS, optional default description) under a path of
    category names, written `cat/sub/name<TAB>wbs<TAB>description`. A
    category tree groups activities by their first path segment. */
module Trackable {
  import opened Wrappers
  import opened Text

  const IDLE_NAME: string := "idle"
  const IDLE_WBS: string := "Idle"

  datatype ParseActivityErr = MissingPath | NoNameInPath | MissingWbs

  datatype ActivityLeaf = ActivityLeaf(name: string, wbs: string, defaultDescription: Option<string>)

  datatype Activity = Activity(path: seq<string>, leaf: ActivityLeaf)

  /** `Activity::builtin_idle`. */
  function BuiltinIdle(): Activity
  {
    Activity([], ActivityLeaf(IDLE_NAME, IDLE_WBS, None))
  }

  /** `From<ActivityLeaf>`: a leaf at the top of the hierarchy. */
  function FromLeaf(leaf: ActivityLeaf): Activity
  {
    Activity([], leaf)
  }

  // ---------------------------------------------------------------------
  // Text form

  /** Each path segment followed by `/`. */
  function PathText(path: seq<string>): string
  {
    if path == [] then "" else path[0] + "/" + PathText(path[1..])
  }

  /** `full_path`. */
  function FullPath(a: Activity): string
  {
    PathText(a.path) + a.leaf.name
  }

  /** The full path is the segments and the name joined by `/`. */
  lemma {:induction false} FullPathIsJoin(path: seq<string>, name: string)
    ensures PathText(path) + name == Join(path + [name], '/')
  {
    if path != [] {
      FullPathIsJoin(path[1..], name);
      var fields := path + [name];
      assert fields[1..] == path[1..] + [name];
      JoinFirstField(fields, '/');
    } else {
      assert path + [name] == [name];
    }
  }

  function DescriptionText(d: Option<string>): string
  {
    d.UnwrapOr("")
  }

  /** `Display for Activity`: the full path, the WBS and the description
      (empty when there is none), separated by tabs. */
  function ActivityText(a: Activity): string
  {
    FullPath(a) + "\t" + a.leaf.wbs + "\t" + DescriptionText(a.leaf.defaultDescription)
  }

  /** `Display for ActivityLeaf`: the same without the path. */
  function LeafText(leaf: ActivityLeaf): string
  {
    leaf.name + "\t" + leaf.wbs + "\t" + DescriptionText(leaf.defaultDescription)
  }

  /** The first tab-separated field of the text form is the full path. */
  lemma DisplayFirstField(a: Activity)
    requires '\t' !in FullPath(a)
    ensures Split(ActivityText(a), '\t')[0] == FullPath(a)
  {
    SplitFirstField(FullPath(a), a.leaf.wbs + "\t" + DescriptionText(a.leaf.defaultDescription), '\t');
    assert ActivityText(a) == FullPath(a) + ['\t'] + (a.leaf.wbs + "\t" + DescriptionText(a.leaf.defaultDescription));
  }

  /** A leaf at the top prints the same with and without its (empty) path. */
  lemma FromLeafText(leaf: ActivityLeaf)
    ensures ActivityText(FromLeaf(leaf)) == LeafText(leaf)
  {
  }

  /** `Activity::from_str`. The description is the third field only (a
      fourth is ignored); an empty one is none. */
  function ParseActivity(input: string): (r: Result<Activity, ParseActivityErr>)
    ensures r.Err? ==> r.error != MissingPath
    ensures r == Err(MissingWbs) <==> '\t' !in input
    ensures r.Ok? ==> r.value.leaf.name != "" && '/' !in r.value.leaf.name
    ensures r.Ok? ==> forall i :: 0 <= i < |r.value.path| ==> '/' !in r.value.path[i]
    ensures r.Ok? ==> r.value.leaf.defaultDescription != Some("")
  {
    var fields := Split(input, '\t');
    SplitSingle(input, '\t');
    if |fields| < 2 then Err(MissingWbs)
    else
      var description := if |fields| < 3 || fields[2] == "" then None else Some(fields[2]);
      var segments := Split(fields[0], '/');
      var name := segments[|segments| - 1];
      if name == "" then Err(NoNameInPath)
      else Ok(Activity(segments[..|segments| - 1], ActivityLeaf(name, fields[1], description)))
  }

  /** What a line of at least two tab fields parses to: it fails, with
      `NoNameInPath`, exactly when the last `/` segment of the first field
      is empty; otherwise the path and name are the first field's segments,
      the WBS is the second field, and the description is the third field,
      absent when there is none or it is empty. */
  lemma ParseActivityContent(input: string)
    ensures var r := ParseActivity(input);
      var fields := Split(input, '\t'); var segments := Split(fields[0], '/');
      |fields| >= 2 ==>
        && (r.Ok? <==> segments[|segments| - 1] != "")
        && (r.Err? ==> r.error == NoNameInPath)
        && (r.Ok? ==> && r.value.path + [r.value.leaf.name] == segments
                      && r.value.leaf.wbs == fields[1]
                      && r.value.leaf.defaultDescription == (if |fields| < 3 || fields[2] == "" then None else Some(fields[2])))
  {
    var segments := Split(Split(input, '\t')[0], '/');
    assert segments[..|segments| - 1] + [segments[|segments| - 1]] == segments;
  }

  /** The activities the text form can carry: a non-empty name, no `/` in
      the name or a segment, no tab anywhere, and no empty description. */
  predicate Writable(a: Activity)
  {
    && a.leaf.name != "" && '/' !in a.leaf.name && '\t' !in a.leaf.name
    && (forall i :: 0 <= i < |a.path| ==> '/' !in a.path[i] && '\t' !in a.path[i])
    && '\t' !in a.leaf.wbs
    && (a.leaf.defaultDescription.Some? ==> a.leaf.defaultDescription.value != "" && '\t' !in a.leaf.defaultDescription.value)
  }

  lemma {:induction false} PathTextNoTab(path: seq<string>)
    requires forall i :: 0 <= i < |path| ==> '\t' !in path[i]
    ensures '\t' !in PathText(path)
  {
    if path != [] {
      PathTextNoTab(path[1..]);
    }
  }

  /** The text form is the full path, the WBS and the description joined
      by tabs. */
  lemma ActivityTextFields(a: Activity)
    ensures Join([FullPath(a), a.leaf.wbs, DescriptionText(a.leaf.defaultDescription)], '\t') == ActivityText(a)
  {
    var fields := [FullPath(a), a.leaf.wbs, DescriptionText(a.leaf.defaultDescription)];
    JoinFirstField(fields, '\t');
    assert fields[1..] == [a.leaf.wbs, DescriptionText(a.leaf.defaultDescription)];
    JoinFirstField(fields[1..], '\t');
    assert fields[1..][1..] == [DescriptionText(a.leaf.defaultDescription)];
  }

  /** Splitting the full path of a writable activity on `/` gives its path
      segments followed by its name. */
  lemma FullPathSegments(a: Activity)
    requires Writable(a)
    ensures Split(FullPath(a), '/') == a.path + [a.leaf.name]
  {
    var segments := a.path + [a.leaf.name];
    FullPathIsJoin(a.path, a.leaf.name);
    SplitJoin(segments, '/');
  }

  /** A line of three tab fields whose first field splits on `/` into a
      path and a non-empty name parses to that activity. */
  lemma ParseActivityFields(input: string, wbs: string, descr: string, path: seq<string>, name: string)
    requires Split(input, '\t') == [Join(path + [name], '/'), wbs, descr]
    requires Split(Join(path + [name], '/'), '/') == path + [name]
    requires name != ""
    ensures ParseActivity(input) == Ok(Activity(path, ActivityLeaf(name, wbs, if descr == "" then None else Some(descr))))
  {
    var segments := path + [name];
    assert segments[..|segments| - 1] == path;
  }

  /** A path and a name are read back from their joined segments. */
  lemma SegmentsLast(path: seq<string>, name: string, p: seq<string>, n: string)
    requires p + [n] == path + [name]
    ensures p == path && n == name
  {
    assert |p| == |path|;
    assert p == (p + [n])[..|p|] && path == (path + [name])[..|path|];
  }

  /** A line of tab-free fields: the second is the WBS and the third, when
      present and not empty, the description; a line of two fields has no
      description. */
  lemma ParseActivityJoined(fields: seq<string>, path: seq<string>, name: string)
    requires |fields| >= 2 && forall i :: 0 <= i < |fields| ==> '\t' !in fields[i]
    requires Split(fields[0], '/') == path + [name] && name != ""
    ensures ParseActivity(Join(fields, '\t'))
         == Ok(Activity(path, ActivityLeaf(name, fields[1], if |fields| < 3 || fields[2] == "" then None else Some(fields[2]))))
  {
    SplitJoin(fields, '\t');
    ParseActivityContent(Join(fields, '\t'));
    var r := ParseActivity(Join(fields, '\t'));
    SegmentsLast(path, name, r.value.path, r.value.leaf.name);
  }

  /** Fields after the third are ignored. */
  lemma ParseActivityExtraFields(fields: seq<string>)
    requires |fields| > 3 && forall i :: 0 <= i < |fields| ==> '\t' !in fields[i]
    ensures ParseActivity(Join(fields, '\t')) == ParseActivity(Join(fields[..3], '\t'))
  {
    var three := fields[..3];
    assert forall i :: 0 <= i < |three| ==> three[i] == fields[i];
    var segments := Split(fields[0], '/');
    var name := segments[|segments| - 1];
    assert segments == segments[..|segments| - 1] + [name];
    SplitJoin(fields, '\t');
    SplitJoin(three, '\t');
    ParseActivityContent(Join(fields, '\t'));
    ParseActivityContent(Join(three, '\t'));
    if name != "" {
      ParseActivityJoined(fields, segments[..|segments| - 1], name);
      ParseActivityJoined(three, segments[..|segments| - 1], name);
    }
  }

  /** Reading the text form of an activity gives it back. */
  lemma ParseDisplay(a: Activity)
    requires Writable(a)
    ensures ParseActivity(ActivityText(a)) == Ok(a)
  {
    var descr := DescriptionText(a.leaf.defaultDescription);
    var fields := [FullPath(a), a.leaf.wbs, descr];
    PathTextNoTab(a.path);
    ActivityTextFields(a);
    SplitJoin(fields, '\t');
    FullPathSegments(a);
    FullPathIsJoin(a.path, a.leaf.name);
    ParseActivityFields(ActivityText(a), a.leaf.wbs, descr, a.path, a.leaf.name);
  }

  /** The built-in idle activity has a text form that reads back. */
  lemma BuiltinIdleRoundTrip()
    ensures ParseActivity(ActivityText(BuiltinIdle())) == Ok(BuiltinIdle())
    ensures FullPath(BuiltinIdle()) == IDLE_NAME
  {
    ParseDisplay(BuiltinIdle());
  }

  // ---------------------------------------------------------------------
  // Category tree

  datatype ActivityCategory = ActivityCategory(branches: map<string, ActivityCategory>, leafs: map<string, ActivityLeaf>)

  /** Every leaf is stored under its own name, at every level. */
  predicate WellKeyed(cat: ActivityCategory)
  {
    && (forall k :: k in cat.leafs ==> cat.leafs[k].name == k)
    && (forall k :: k in cat.branches ==> WellKeyed(cat.branches[k]))
  }

  /** The top-level leaves among the activities; a later one of the same
      name replaces an earlier one (`HashMap::insert`). */
  function LeafsOf(acts: seq<Activity>): map<string, ActivityLeaf>
  {
    if acts == [] then map[]
    else
      var m := LeafsOf(acts[..|acts| - 1]);
      var a := acts[|acts| - 1];
      if a.path == [] then m[a.leaf.name := a.leaf] else m
  }

  /** The activity one level down: its first segment removed. */
  function Descend(a: Activity): Activity
    requires a.path != []
  {
    a.(path := a.path[1..])
  }

  /** The activities with a path, grouped by first segment in order of
      appearance and moved one level down. */
  function GroupsOf(acts: seq<Activity>): map<string, seq<Activity>>
  {
    if acts == [] then map[]
    else
      var m := GroupsOf(acts[..|acts| - 1]);
      var a := acts[|acts| - 1];
      if a.path == [] then m
      else m[a.path[0] := (if a.path[0] in m then m[a.path[0]] else []) + [Descend(a)]]
  }

  /** Total path length: each level down lowers it. */
  function Weight(acts: seq<Activity>): nat
  {
    if acts == [] then 0 else Weight(acts[..|acts| - 1]) + |acts[|acts| - 1].path|
  }

  lemma {:induction false} GroupsWeight(acts: seq<Activity>)
    ensures forall k :: k in GroupsOf(acts) ==>
      |GroupsOf(acts)[k]| >= 1 && Weight(GroupsOf(acts)[k]) + |GroupsOf(acts)[k]| <= Weight(acts)
  {
    if acts != [] {
      var init := acts[..|acts| - 1];
      var a := acts[|acts| - 1];
      GroupsWeight(init);
      var m := GroupsOf(init);
      assert Weight(acts) == Weight(init) + |a.path|;
      if a.path != [] {
        var h := a.path[0];
        var old_ := if h in m then m[h] else [];
        var g := old_ + [Descend(a)];
        assert g[..|g| - 1] == old_;
        assert Weight(g) == Weight(old_) + |a.path| - 1;
        assert GroupsOf(acts) == m[h := g];
      } else {
        assert GroupsOf(acts) == m;
      }
    }
  }

  /** `ActivityCategory::from` as a value. */
  function CategoryOf(acts: seq<Activity>): ActivityCategory
    decreases Weight(acts)
  {
    var groups := GroupsOf(acts);
    GroupsWeight(acts);
    ActivityCategory(map k | k in groups :: CategoryOf(groups[k]), LeafsOf(acts))
  }

  /** The first pass of `ActivityCategory::from`: the leaves without a
      path, and per first segment the activities one level down. */
  method SortActivities(activities: seq<Activity>) returns (branches: map<string, seq<Activity>>, leafs: map<string, ActivityLeaf>)
    ensures branches == GroupsOf(activities) && leafs == LeafsOf(activities)
  {
    branches := map[];
    leafs := map[];
    for i := 0 to |activities|
      invariant branches == GroupsOf(activities[..i])
      invariant leafs == LeafsOf(activities[..i])
    {
      assert activities[..i + 1][..i] == activities[..i];
      var activity := activities[i];
      if activity.path == [] {
        leafs := leafs[activity.leaf.name := activity.leaf];
      } else {
        var head := activity.path[0];
        var group := if head in branches then branches[head] else [];
        branches := branches[head := group + [activity.(path := activity.path[1..])]];
      }
    }
    assert activities[..|activities|] == activities;
  }

  /** `ActivityCategory::from`: sort the activities, then build each
      branch from its list. */
  method CategoryFrom(activities: seq<Activity>) returns (cat: ActivityCategory)
    ensures cat == CategoryOf(activities)
    decreases Weight(activities)
  {
    var branches, leafs := SortActivities(activities);
    GroupsWeight(activities);
    var built: map<string, ActivityCategory> := map[];
    var pending := branches.Keys;
    while pending != {}
      invariant pending <= branches.Keys
      invariant built.Keys == branches.Keys - pending
      invariant forall k :: k in built ==> built[k] == CategoryOf(branches[k])
      decreases |pending|
    {
      var k :| k in pending;
      var sub := CategoryFrom(branches[k]);
      built := built[k := sub];
      pending := pending - {k};
    }
    cat := ActivityCategory(built, leafs);
  }

  /** Each top-level leaf comes from an activity without a path and is
      stored under its name. */
  lemma {:induction false} LeafsOfSound(acts: seq<Activity>)
    ensures forall k :: k in LeafsOf(acts) ==> LeafsOf(acts)[k].name == k && Activity([], LeafsOf(acts)[k]) in acts
  {
    if acts != [] {
      var init := acts[..|acts| - 1];
      var a := acts[|acts| - 1];
      LeafsOfSound(init);
      var m := LeafsOf(init);
      if a.path == [] {
        assert LeafsOf(acts) == m[a.leaf.name := a.leaf];
        forall k | k in LeafsOf(acts)
          ensures LeafsOf(acts)[k].name == k && Activity([], LeafsOf(acts)[k]) in acts
        {
          if k != a.leaf.name {
            assert Activity([], m[k]) in init;
          }
        }
      } else {
        assert LeafsOf(acts) == m;
        forall k | k in LeafsOf(acts)
          ensures Activity([], LeafsOf(acts)[k]) in acts
        {
          assert Activity([], m[k]) in init;
        }
      }
    }
  }

  /** Every activity without a path has its name stored. */
  lemma {:induction false} LeafsOfComplete(acts: seq<Activity>)
    ensures forall a :: a in acts && a.path == [] ==> a.leaf.name in LeafsOf(acts)
  {
    if acts != [] {
      var init := acts[..|acts| - 1];
      LeafsOfComplete(init);
      forall a | a in acts && a.path == []
        ensures a.leaf.name in LeafsOf(acts)
      {
        if a != acts[|acts| - 1] {
          var j :| 0 <= j < |acts| && acts[j] == a;
          assert init[j] == a;
        }
      }
    }
  }

  /** Of several activities without a path and with the same name, the
      last one is the one kept. */
  lemma {:induction false} LeafsOfLastWins(acts: seq<Activity>, i: nat)
    requires i < |acts| && acts[i].path == [] && LastOfName(acts, i)
    ensures acts[i].leaf.name in LeafsOf(acts) && LeafsOf(acts)[acts[i].leaf.name] == acts[i].leaf
  {
    var init := acts[..|acts| - 1];
    if i < |acts| - 1 {
      assert init[i] == acts[i];
      assert LastOfName(init, i);
      LeafsOfLastWins(init, i);
    }
  }

  /** No later activity without a path has the same name as the `i`th. */
  predicate LastOfName(acts: seq<Activity>, i: int)
    requires 0 <= i < |acts|
  {
    forall j :: i < j < |acts| && acts[j].path == [] ==> acts[j].leaf.name != acts[i].leaf.name
  }

  /** Each grouped activity is an original one one level down. */
  lemma {:induction false} GroupsOfSound(acts: seq<Activity>)
    ensures forall k, b :: k in GroupsOf(acts) && b in GroupsOf(acts)[k] ==> Activity([k] + b.path, b.leaf) in acts
  {
    if acts != [] {
      var init := acts[..|acts| - 1];
      GroupsOfSound(init);
      var a := acts[|acts| - 1];
      forall k, b | k in GroupsOf(acts) && b in GroupsOf(acts)[k]
        ensures Activity([k] + b.path, b.leaf) in acts
      {
        if a.path != [] && k == a.path[0] && b == Descend(a) {
          assert [k] + b.path == a.path;
        } else {
          assert Activity([k] + b.path, b.leaf) in init;
        }
      }
    }
  }

  /** Every activity with a path is grouped, one level down, under its
      first segment. */
  lemma {:induction false} GroupsOfComplete(acts: seq<Activity>)
    ensures forall a :: a in acts && a.path != [] ==> a.path[0] in GroupsOf(acts) && Descend(a) in GroupsOf(acts)[a.path[0]]
  {
    if acts != [] {
      var init := acts[..|acts| - 1];
      GroupsOfComplete(init);
      var a := acts[|acts| - 1];
      forall x | x in acts && x.path != []
        ensures x.path[0] in GroupsOf(acts) && Descend(x) in GroupsOf(acts)[x.path[0]]
      {
        if x != a {
          var j :| 0 <= j < |acts| && acts[j] == x;
          assert init[j] == x;
        }
      }
    }
  }

  /** Built trees store every leaf under its own name. */
  lemma CategoryOfWellKeyed(acts: seq<Activity>)
    ensures WellKeyed(CategoryOf(acts))
    decreases Weight(acts)
  {
    LeafsOfSound(acts);
    GroupsWeight(acts);
    var groups := GroupsOf(acts);
    forall k | k in groups
      ensures WellKeyed(CategoryOf(groups[k]))
    {
      CategoryOfWellKeyed(groups[k]);
    }
  }

  // ---------------------------------------------------------------------
  // Lookup

  datatype ItemRef = Leaf(leaf: ActivityLeaf) | Category(category: ActivityCategory)

  datatype LookupError = NotACategory(prefix: seq<string>) | NoSuchItem(prefix: seq<string>, requested: string)

  /** One step down: a branch of that name, else a leaf of that name. */
  function Child(c: ActivityCategory, name: string): Option<ItemRef>
  {
    if name in c.branches then Some(Category(c.branches[name]))
    else if name in c.leafs then Some(Leaf(c.leafs[name]))
    else None
  }

  /** The item a path names, or the first step that fails. */
  function ItemAt(cat: ActivityCategory, path: seq<string>): Result<ItemRef, LookupError>
  {
    if path == [] then Ok(Category(cat))
    else
      var prefix := path[..|path| - 1];
      match ItemAt(cat, prefix)
      case Err(e) => Err(e)
      case Ok(Leaf(_)) => Err(NotACategory(prefix))
      case Ok(Category(c)) =>
        match Child(c, path[|path| - 1])
        case Some(item) => Ok(item)
        case None => Err(NoSuchItem(prefix, path[|path| - 1]))
  }

  /** Once a prefix fails, the whole path fails the same way. */
  lemma {:induction false} ItemAtFailed(cat: ActivityCategory, path: seq<string>, n: nat)
    requires n <= |path| && ItemAt(cat, path[..n]).Err?
    ensures ItemAt(cat, path) == ItemAt(cat, path[..n])
  {
    if n < |path| {
      var init := path[..|path| - 1];
      assert init[..n] == path[..n];
      ItemAtFailed(cat, init, n);
    } else {
      assert path[..n] == path;
    }
  }

  /** `get_item_at`: walk down one segment at a time. */
  method GetItemAt(cat: ActivityCategory, path: seq<string>) returns (r: Result<ItemRef, LookupError>)
    ensures r == ItemAt(cat, path)
  {
    var out := Category(cat);
    for i := 0 to |path|
      invariant ItemAt(cat, path[..i]) == Ok(out)
    {
      assert path[..i + 1][..i] == path[..i];
      var category: ActivityCategory;
      match out {
        case Leaf(_) =>
          ItemAtFailed(cat, path, i + 1);
          return Err(NotACategory(path[..i]));
        case Category(c) =>
          category := c;
      }
      var part := path[i];
      if part in category.branches {
        out := Category(category.branches[part]);
      } else if part in category.leafs {
        out := Leaf(category.leafs[part]);
      } else {
        ItemAtFailed(cat, path, i + 1);
        return Err(NoSuchItem(path[..i], part));
      }
    }
    assert path[..|path|] == path;
    return Ok(out);
  }

  /** What a failure names: going through a leaf names the prefix that
      ends at the leaf; a missing item names the prefix that was found and
      the segment that was not. */
  lemma {:induction false} ItemAtErrors(cat: ActivityCategory, path: seq<string>)
    ensures ItemAt(cat, path).Err? && ItemAt(cat, path).error.NotACategory? ==>
      var p := ItemAt(cat, path).error.prefix;
      && |p| < |path| && p == path[..|p|]
      && ItemAt(cat, p).Ok? && ItemAt(cat, p).value.Leaf?
    ensures ItemAt(cat, path).Err? && ItemAt(cat, path).error.NoSuchItem? ==>
      var p := ItemAt(cat, path).error.prefix;
      var name := ItemAt(cat, path).error.requested;
      && |p| < |path| && p == path[..|p|] && name == path[|p|]
      && ItemAt(cat, p).Ok? && ItemAt(cat, p).value.Category?
      && name !in ItemAt(cat, p).value.category.branches
      && name !in ItemAt(cat, p).value.category.leafs
  {
    if path != [] {
      var init := path[..|path| - 1];
      ItemAtErrors(cat, init);
      if ItemAt(cat, init).Err? {
        var p := ItemAt(cat, init).error.prefix;
        assert path[..|p|] == init[..|p|];
      }
    }
  }

  /** A branch wins over a leaf of the same name. */
  lemma ItemAtBranchFirst(cat: ActivityCategory, p: seq<string>, name: string)
    requires ItemAt(cat, p).Ok? && ItemAt(cat, p).value.Category?
    requires name in ItemAt(cat, p).value.category.branches
    ensures ItemAt(cat, p + [name]) == Ok(Category(ItemAt(cat, p).value.category.branches[name]))
  {
    assert (p + [name])[..|p|] == p;
  }

  /** Looking up below a branch is looking up in the branch. */
  lemma {:induction false} ItemAtUnder(cat: ActivityCategory, name: string, p: seq<string>)
    requires name in cat.branches
    ensures ItemAt(cat, [name] + p).Ok? == ItemAt(cat.branches[name], p).Ok?
    ensures ItemAt(cat, [name] + p).Ok? ==> ItemAt(cat, [name] + p).value == ItemAt(cat.branches[name], p).value
  {
    if p == [] {
      assert [name] + p == [name];
      assert [name][..0] == [];
    } else {
      var init := p[..|p| - 1];
      ItemAtUnder(cat, name, init);
      assert ([name] + p)[..|[name] + p| - 1] == [name] + init;
    }
  }

  /** Every proper prefix of a path that leads somewhere leads to a
      category. */
  lemma {:induction false} ItemAtPrefixCategory(cat: ActivityCategory, path: seq<string>, n: nat)
    requires n < |path| && ItemAt(cat, path).Ok?
    ensures ItemAt(cat, path[..n]).Ok? && ItemAt(cat, path[..n]).value.Category?
  {
    var init := path[..|path| - 1];
    if n == |path| - 1 {
      assert init == path[..n];
    } else {
      ItemAtPrefixCategory(cat, init, n);
      assert init[..n] == path[..n];
    }
  }

  /** A leaf stored in the category that `p` leads to. */
  predicate LeafAt(cat: ActivityCategory, p: seq<string>, leaf: ActivityLeaf)
  {
    && ItemAt(cat, p).Ok? && ItemAt(cat, p).value.Category?
    && leaf.name in ItemAt(cat, p).value.category.leafs
    && ItemAt(cat, p).value.category.leafs[leaf.name] == leaf
  }

  /** Where a leaf sits: at the top, or under a branch. */
  lemma LeafAtCons(cat: ActivityCategory, name: string, p: seq<string>, leaf: ActivityLeaf)
    requires LeafAt(cat, [name] + p, leaf)
    ensures name in cat.branches && LeafAt(cat.branches[name], p, leaf)
  {
    assert [name][..0] == [];
    assert ItemAt(cat, [name]) == if name in cat.branches then Ok(Category(cat.branches[name]))
      else if name in cat.leafs then Ok(Leaf(cat.leafs[name])) else Err(NoSuchItem([], name));
    if p != [] {
      ItemAtPrefixCategory(cat, [name] + p, 1);
      assert ([name] + p)[..1] == [name];
    } else {
      assert [name] + p == [name];
    }
    ItemAtUnder(cat, name, p);
  }

  // ---------------------------------------------------------------------
  // Listing

  /** Activities moved one level up, under `name`. */
  function Prefixed(name: string, acts: seq<Activity>): seq<Activity>
  {
    seq(|acts|, i requires 0 <= i < |acts| => Activity([name] + acts[i].path, acts[i].leaf))
  }

  /** The leaves of a category, in ascending order of their keys. */
  function LeafBlock(cat: ActivityCategory): seq<Activity>
  {
    var names := SortedStrings(cat.leafs.Keys);
    seq(|names|, i requires 0 <= i < |names| => FromLeaf(cat.leafs[names[i]]))
  }

  /** `to_activities_sorted`: each branch's activities (branches in
      ascending name order, each prefixed with the branch name), then the
      leaves in ascending name order. For a tree that stores each leaf under
      its own name, ordering leaves by key is ordering them by name. */
  function ToActivitiesSorted(cat: ActivityCategory): seq<Activity>
    decreases cat, |cat.branches| + 1
  {
    BranchBlocks(cat, SortedStrings(cat.branches.Keys)) + LeafBlock(cat)
  }

  function BranchBlocks(cat: ActivityCategory, keys: seq<string>): seq<Activity>
    requires forall i :: 0 <= i < |keys| ==> keys[i] in cat.branches
    decreases cat, |keys|
  {
    if keys == [] then []
    else Prefixed(keys[0], ToActivitiesSorted(cat.branches[keys[0]])) + BranchBlocks(cat, keys[1..])
  }

  /** A leaf of this name is stored in the category that `p` leads to. */
  predicate NameAt(cat: ActivityCategory, p: seq<string>, name: string)
  {
    ItemAt(cat, p).Ok? && ItemAt(cat, p).value.Category? && name in ItemAt(cat, p).value.category.leafs
  }

  /** Keys in strictly ascending order. */
  predicate StrictlyAscending(keys: seq<string>)
  {
    forall i, j :: 0 <= i < j < |keys| ==> StrLeq(keys[i], keys[j]) && keys[i] != keys[j]
  }

  /** How a listing is ordered: activities under a branch before the
      top-level leaves, branches by ascending first segment, leaves by
      strictly ascending name. */
  predicate ListedInOrder(l: seq<Activity>)
  {
    forall i, j :: 0 <= i < j < |l| ==>
      && (l[i].path == [] ==> l[j].path == [])
      && (l[i].path != [] && l[j].path != [] ==> StrLeq(l[i].path[0], l[j].path[0]))
      && (l[i].path == [] && l[j].path == [] ==> StrLeq(l[i].leaf.name, l[j].leaf.name) && l[i].leaf.name != l[j].leaf.name)
  }

  /** The branch blocks hold activities whose first segment is one of the
      keys, in the order of the keys. */
  lemma {:induction false} BranchBlocksOrder(cat: ActivityCategory, keys: seq<string>)
    requires forall i :: 0 <= i < |keys| ==> keys[i] in cat.branches
    requires StrictlyAscending(keys)
    ensures forall b :: b in BranchBlocks(cat, keys) ==> b.path != [] && b.path[0] in keys
    ensures forall i, j :: 0 <= i < j < |BranchBlocks(cat, keys)| ==>
      StrLeq(BranchBlocks(cat, keys)[i].path[0], BranchBlocks(cat, keys)[j].path[0])
    decreases |keys|
  {
    if keys != [] {
      var k := keys[0];
      var head := Prefixed(k, ToActivitiesSorted(cat.branches[k]));
      var rest := BranchBlocks(cat, keys[1..]);
      BranchBlocksOrder(cat, keys[1..]);
      var l := BranchBlocks(cat, keys);
      assert l == head + rest;
      StrLeqTotal(k, k);
      forall i, j | 0 <= i < j < |l|
        ensures StrLeq(l[i].path[0], l[j].path[0])
      {
        if j < |head| {
          assert l[i] == head[i] && l[j] == head[j];
        } else if i >= |head| {
          assert l[i] == rest[i - |head|] && l[j] == rest[j - |head|];
        } else {
          assert l[i] == head[i] && l[j] == rest[j - |head|];
          assert l[j] in rest;
          var m :| 0 <= m < |keys[1..]| && keys[1..][m] == l[j].path[0];
          assert keys[m + 1] == l[j].path[0];
        }
      }
    }
  }

  /** The leaf block of a well-keyed tree: leaves without a path, in
      strictly ascending order of name. */
  lemma LeafBlockOrder(cat: ActivityCategory)
    requires WellKeyed(cat)
    ensures forall i :: 0 <= i < |LeafBlock(cat)| ==> LeafBlock(cat)[i].path == []
    ensures forall i, j :: 0 <= i < j < |LeafBlock(cat)| ==>
      StrLeq(LeafBlock(cat)[i].leaf.name, LeafBlock(cat)[j].leaf.name) && LeafBlock(cat)[i].leaf.name != LeafBlock(cat)[j].leaf.name
  {
    var names := SortedStrings(cat.leafs.Keys);
    assert forall i :: 0 <= i < |names| ==> LeafBlock(cat)[i].leaf.name == names[i];
  }

  /** Ordered branch activities followed by ordered leaves are in order. */
  lemma ConcatInOrder(blocks: seq<Activity>, leaves: seq<Activity>)
    requires forall b :: b in blocks ==> b.path != []
    requires forall i, j :: 0 <= i < j < |blocks| ==> StrLeq(blocks[i].path[0], blocks[j].path[0])
    requires forall i :: 0 <= i < |leaves| ==> leaves[i].path == []
    requires forall i, j :: 0 <= i < j < |leaves| ==>
      StrLeq(leaves[i].leaf.name, leaves[j].leaf.name) && leaves[i].leaf.name != leaves[j].leaf.name
    ensures ListedInOrder(blocks + leaves)
  {
    var l := blocks + leaves;
    forall i, j | 0 <= i < j < |l|
      ensures l[i].path == [] ==> l[j].path == []
      ensures l[i].path != [] && l[j].path != [] ==> StrLeq(l[i].path[0], l[j].path[0])
      ensures l[i].path == [] && l[j].path == [] ==> StrLeq(l[i].leaf.name, l[j].leaf.name) && l[i].leaf.name != l[j].leaf.name
    {
      if j < |blocks| {
        assert l[i] == blocks[i] && l[j] == blocks[j];
        assert l[i] in blocks && l[j] in blocks;
      } else if i < |blocks| {
        assert l[i] == blocks[i] && l[i] in blocks;
        assert l[j] == leaves[j - |blocks|];
      } else {
        assert l[i] == leaves[i - |blocks|] && l[j] == leaves[j - |blocks|];
      }
    }
  }

  /** The listing of a well-keyed tree is in order. */
  lemma ListedOrder(cat: ActivityCategory)
    requires WellKeyed(cat)
    ensures ListedInOrder(ToActivitiesSorted(cat))
  {
    var keys := SortedStrings(cat.branches.Keys);
    BranchBlocksOrder(cat, keys);
    LeafBlockOrder(cat);
    ConcatInOrder(BranchBlocks(cat, keys), LeafBlock(cat));
  }

  /** Every listed activity names a leaf reachable along its path. */
  lemma ListedReachable(cat: ActivityCategory)
    requires WellKeyed(cat)
    ensures forall b :: b in ToActivitiesSorted(cat) ==> LeafAt(cat, b.path, b.leaf)
    decreases cat, |cat.branches| + 1
  {
    BlocksReachable(cat, SortedStrings(cat.branches.Keys));
    LeafBlockReachable(cat);
  }

  lemma LeafBlockReachable(cat: ActivityCategory)
    requires WellKeyed(cat)
    ensures forall b :: b in LeafBlock(cat) ==> LeafAt(cat, b.path, b.leaf)
  {
    var leaves := LeafBlock(cat);
    var names := SortedStrings(cat.leafs.Keys);
    assert ItemAt(cat, []) == Ok(Category(cat));
    forall b | b in leaves
      ensures LeafAt(cat, b.path, b.leaf)
    {
      var i :| 0 <= i < |leaves| && leaves[i] == b;
      assert b == Activity([], cat.leafs[names[i]]);
    }
  }

  lemma BlocksReachable(cat: ActivityCategory, keys: seq<string>)
    requires WellKeyed(cat)
    requires forall i :: 0 <= i < |keys| ==> keys[i] in cat.branches
    ensures forall b :: b in BranchBlocks(cat, keys) ==> LeafAt(cat, b.path, b.leaf)
    decreases cat, |keys|
  {
    if keys != [] {
      var k := keys[0];
      var sub := ToActivitiesSorted(cat.branches[k]);
      ListedReachable(cat.branches[k]);
      BlocksReachable(cat, keys[1..]);
      var head := Prefixed(k, sub);
      forall b | b in head
        ensures LeafAt(cat, b.path, b.leaf)
      {
        var i :| 0 <= i < |head| && head[i] == b;
        assert sub[i] in sub;
        ItemAtUnder(cat, k, sub[i].path);
      }
    }
  }

  /** A block for a key is part of the branch blocks. */
  lemma {:induction false} BlocksContain(cat: ActivityCategory, keys: seq<string>, k: string, b: Activity)
    requires forall i :: 0 <= i < |keys| ==> keys[i] in cat.branches
    requires k in keys && b in Prefixed(k, ToActivitiesSorted(cat.branches[k]))
    ensures b in BranchBlocks(cat, keys)
  {
    if keys[0] != k {
      BlocksContain(cat, keys[1..], k, b);
    }
  }

  /** A leaf at the top of a category is listed with the empty path. */
  lemma TopLeafListed(cat: ActivityCategory, leaf: ActivityLeaf)
    requires LeafAt(cat, [], leaf)
    ensures Activity([], leaf) in ToActivitiesSorted(cat)
  {
    var names := SortedStrings(cat.leafs.Keys);
    var i :| 0 <= i < |names| && names[i] == leaf.name;
    assert LeafBlock(cat)[i] == Activity([], leaf);
  }

  /** An activity listed under a branch is listed in the category with the
      branch's key put before its path. */
  lemma BranchLeafListed(cat: ActivityCategory, k: string, p: seq<string>, leaf: ActivityLeaf)
    requires k in cat.branches && Activity(p, leaf) in ToActivitiesSorted(cat.branches[k])
    ensures Activity([k] + p, leaf) in ToActivitiesSorted(cat)
  {
    var keys := SortedStrings(cat.branches.Keys);
    var sub := ToActivitiesSorted(cat.branches[k]);
    var i :| 0 <= i < |sub| && sub[i] == Activity(p, leaf);
    assert Prefixed(k, sub)[i] == Activity([k] + p, leaf);
    BlocksContain(cat, keys, k, Activity([k] + p, leaf));
  }

  /** Every reachable leaf is listed under its path. */
  lemma {:induction false} ReachableListed(cat: ActivityCategory, p: seq<string>, leaf: ActivityLeaf)
    requires LeafAt(cat, p, leaf)
    ensures Activity(p, leaf) in ToActivitiesSorted(cat)
    decreases |p|
  {
    if p == [] {
      TopLeafListed(cat, leaf);
    } else {
      var k := p[0];
      assert p == [k] + p[1..];
      LeafAtCons(cat, k, p[1..], leaf);
      ReachableListed(cat.branches[k], p[1..], leaf);
      BranchLeafListed(cat, k, p[1..], leaf);
    }
  }

  /** Every activity a tree is built from is reachable in it. */
  lemma {:induction false} CategoryOfComplete(acts: seq<Activity>, a: Activity)
    requires a in acts
    ensures NameAt(CategoryOf(acts), a.path, a.leaf.name)
    decreases |a.path|
  {
    var cat := CategoryOf(acts);
    if a.path == [] {
      LeafsOfComplete(acts);
    } else {
      GroupsOfComplete(acts);
      var k := a.path[0];
      var group := GroupsOf(acts)[k];
      assert cat.branches[k] == CategoryOf(group);
      CategoryOfComplete(group, Descend(a));
      ItemAtUnder(cat, k, a.path[1..]);
      assert a.path == [k] + a.path[1..];
    }
  }

  /** Every leaf reachable in a built tree is one of the activities it was
      built from. */
  lemma {:induction false} CategoryOfSound(acts: seq<Activity>, p: seq<string>, leaf: ActivityLeaf)
    requires LeafAt(CategoryOf(acts), p, leaf)
    ensures Activity(p, leaf) in acts
    decreases |p|
  {
    var cat := CategoryOf(acts);
    if p == [] {
      LeafsOfSound(acts);
    } else {
      var k := p[0];
      assert p == [k] + p[1..];
      LeafAtCons(cat, k, p[1..], leaf);
      var group := GroupsOf(acts)[k];
      assert cat.branches[k] == CategoryOf(group);
      GroupsWeight(acts);
      CategoryOfSound(group, p[1..], leaf);
      GroupsOfSound(acts);
    }
  }

  /** Listing a tree built from activities gives back activities from the
      input, at least one for each full path and name of the input, in
      order. */
  lemma ListedFromActivities(acts: seq<Activity>)
    ensures forall b :: b in ToActivitiesSorted(CategoryOf(acts)) ==> b in acts
    ensures forall a :: a in acts ==>
      exists b :: b in ToActivitiesSorted(CategoryOf(acts)) && b.path == a.path && b.leaf.name == a.leaf.name
    ensures ListedInOrder(ToActivitiesSorted(CategoryOf(acts)))
  {
    var cat := CategoryOf(acts);
    CategoryOfWellKeyed(acts);
    ListedReachable(cat);
    forall b | b in ToActivitiesSorted(cat)
      ensures b in acts
    {
      CategoryOfSound(acts, b.path, b.leaf);
    }
    forall a | a in acts
      ensures exists b :: b in ToActivitiesSorted(cat) && b.path == a.path && b.leaf.name == a.leaf.name
    {
      CategoryOfComplete(acts, a);
      var leaf := ItemAt(cat, a.path).value.category.leafs[a.leaf.name];
      CategoryOfWellKeyed(acts);
      WellKeyedAt(cat, a.path);
      ReachableListed(cat, a.path, leaf);
    }
    CategoryOfWellKeyed(acts);
    ListedOrder(cat);
  }

  /** Every category reachable in a well-keyed tree is well keyed. */
  lemma {:induction false} WellKeyedAt(cat: ActivityCategory, p: seq<string>)
    requires WellKeyed(cat)
    requires ItemAt(cat, p).Ok? && ItemAt(cat, p).value.Category?
    ensures WellKeyed(ItemAt(cat, p).value.category)
  {
    if p != [] {
      var init := p[..|p| - 1];
      WellKeyedAt(cat, init);
    }
  }
}
