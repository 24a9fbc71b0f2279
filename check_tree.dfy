/** The tri-state check tree of the user interface: a project (or package) node
    is checked, unchecked or indeterminate (None); checking or unchecking a node
    forces the same state on every node below it, and refreshing a node
    recomputes its state from its children. RefProject is a Project with a parent
    and a reference version, RefNuget likewise a Nuget: each is folded into the
    class it derives from. */
module CheckTree {
  import opened Wrappers
  import opened Documents
  import opened Model

  // =====================================================================
  // Project / RefProject

  class Project {
    // ProjectInfo<ReferAssemblyInfo>, which Project derives from
    var name: Option<string>
    var path: Option<FilePath>
    var assemblyVersion: Option<string>
    var fileVersion: Option<string>
    var informationalVersion: Option<string>
    var dataItems: seq<ProjectInfo>
    // RefProject
    var refVersion: Option<string>
    var parent: Option<Project>
    // the check tree
    var isChecked: Option<bool>
    var items: seq<Project>
    ghost var Repr: set<Project>

    /** The node and the nodes below it: each child's nodes lie inside the node's, without the
        node itself, and the node's footprint is exactly itself and its children's. */
    ghost predicate Valid()
      reads this`Repr, this`items, Repr`Repr, Repr`items
      decreases Repr
    {
      this in Repr
      && (forall k :: 0 <= k < |items| ==>
            items[k] in Repr && items[k].Repr <= Repr && this !in items[k].Repr && items[k].Valid())
      && Repr == {this} + ProjectsUnder(items, |items|)
    }

    /** The nodes below the first n children, those children included. */
    static ghost function ProjectsUnder(s: seq<Project>, n: nat): set<Project>
      requires n <= |s|
      reads s`Repr
    {
      if n == 0 then {} else ProjectsUnder(s, n - 1) + s[n - 1].Repr
    }

    /** A node among those below the first n children is below one of them. */
    static lemma {:induction false} ProjectsUnderMember(s: seq<Project>, n: nat, x: Project) returns (k: nat)
      requires n <= |s| && x in ProjectsUnder(s, n)
      ensures k < n && x in s[k].Repr
      decreases n
    {
      if x in s[n - 1].Repr {
        k := n - 1;
      } else {
        k := ProjectsUnderMember(s, n - 1, x);
      }
    }

    /** Appending a child leaves the nodes below the earlier ones as they were. */
    static lemma {:induction false} ProjectsUnderSnoc(s: seq<Project>, c: Project, n: nat)
      requires n <= |s|
      ensures ProjectsUnder(s + [c], n) == ProjectsUnder(s, n)
      decreases n
    {
      if n > 0 {
        ProjectsUnderSnoc(s, c, n - 1);
        assert (s + [c])[n - 1] == s[n - 1];
      }
    }

    /** Every node other than this one is below one of the children. */
    lemma Covered()
      requires Valid()
      ensures forall o :: o in Repr && o != this ==> exists k :: 0 <= k < |items| && o in items[k].Repr
    {
      forall o | o in Repr && o != this
        ensures exists k :: 0 <= k < |items| && o in items[k].Repr
      {
        var k := ProjectsUnderMember(items, |items|, o);
      }
    }

    /** Project() and RefProject(): unchecked, no children, no parent, no data. */
    constructor Empty()
      ensures Valid() && fresh(Repr) && Repr == {this}
      ensures isChecked == Some(false) && items == [] && parent == None && refVersion == None
      ensures name == None && path == None && dataItems == []
      ensures assemblyVersion == None && fileVersion == None && informationalVersion == None
    {
      name, path, dataItems := None, None, [];
      assemblyVersion, fileVersion, informationalVersion := None, None, None;
      refVersion, parent := None, None;
      isChecked, items := Some(false), [];
      Repr := {this};
    }

    /** Project(data): unchecked and without children, with the path, name, versions and data
        items of `data`. */
    constructor (data: ProjectInfo)
      ensures Valid() && fresh(Repr) && Repr == {this}
      ensures isChecked == Some(false) && items == [] && parent == None && refVersion == None
      ensures name == data.name && path == data.path && dataItems == data.items
      ensures assemblyVersion == data.assemblyVersion && fileVersion == data.fileVersion
      ensures informationalVersion == data.informationalVersion
    {
      name, path, dataItems := data.name, data.path, data.items;
      assemblyVersion, fileVersion, informationalVersion := data.assemblyVersion, data.fileVersion, data.informationalVersion;
      refVersion, parent := None, None;
      isChecked, items := Some(false), [];
      Repr := {this};
    }

    /** RefProject(parent, data): Project(data), then the parent is kept. */
    constructor Ref(parent: Option<Project>, data: ProjectInfo)
      ensures Valid() && fresh(Repr) && Repr == {this}
      ensures isChecked == Some(false) && items == [] && this.parent == parent && refVersion == None
      ensures name == data.name && path == data.path && dataItems == data.items
      ensures assemblyVersion == data.assemblyVersion && fileVersion == data.fileVersion
      ensures informationalVersion == data.informationalVersion
    {
      name, path, dataItems := data.name, data.path, data.items;
      assemblyVersion, fileVersion, informationalVersion := data.assemblyVersion, data.fileVersion, data.informationalVersion;
      refVersion, this.parent := None, parent;
      isChecked, items := Some(false), [];
      Repr := {this};
    }

    /** Items.Add(child): the child becomes the last one. */
    method AddItem(child: Project)
      requires Valid() && child.Valid() && this !in child.Repr
      modifies this`Repr, this`items
      ensures Valid() && Repr == old(Repr) + child.Repr && items == old(items) + [child]
      ensures isChecked == old(isChecked)
    {
      ProjectsUnderSnoc(items, child, |items|);
      ghost var below := ProjectsUnder(items + [child], |items| + 1);
      assert below == ProjectsUnder(items, |items|) + child.Repr;
      Repr := Repr + child.Repr;
      items := items + [child];
      assert ProjectsUnder(items, |items|) == below;
    }

    /** The IsChecked setter: the node takes the value, then UpdateChild. */
    method SetIsChecked(value: Option<bool>)
      requires Valid()
      modifies Repr`isChecked
      ensures isChecked == value
      ensures value.Some? ==> forall o :: o in Repr ==> o.isChecked == value
      ensures value.None? ==> forall o :: o in Repr && o != this ==> o.isChecked == old(o.isChecked)
      decreases Repr, 1
    {
      isChecked := value;
      UpdateChild(value);
    }

    /** UpdateChild: a definite value is set on every child in turn, and so on every node below
        this one; an indeterminate one changes nothing. The node's own state is left alone. */
    method UpdateChild(value: Option<bool>)
      requires Valid()
      modifies Repr`isChecked
      ensures isChecked == old(isChecked)
      ensures value.Some? ==> forall o :: o in Repr && o != this ==> o.isChecked == value
      ensures value.None? ==> forall o :: o in Repr ==> o.isChecked == old(o.isChecked)
      decreases Repr, 0
    {
      if value.None? {
        return;
      }
      var i := 0;
      while i < |items|
        invariant 0 <= i <= |items| && isChecked == old(isChecked)
        invariant forall k, o :: 0 <= k < i && o in items[k].Repr ==> o.isChecked == value
      {
        items[i].SetIsChecked(Some(value.value));
        i := i + 1;
      }
      Covered();
    }

    /** Refresh (UpdateCheckedAll): with children, the node becomes checked when all of them are,
        unchecked when none is (both forced below it), indeterminate otherwise; without
        children nothing changes. The reference version is untouched. */
    method Refresh()
      requires Valid()
      modifies Repr`isChecked
      ensures Valid() && refVersion == old(refVersion) && items == old(items)
      ensures |items| == 0 ==> forall o :: o in Repr ==> o.isChecked == old(o.isChecked)
      ensures |items| > 0 && old(AllChecked(items)) ==> forall o :: o in Repr ==> o.isChecked == Some(true)
      ensures |items| > 0 && old(NoneChecked(items)) ==> forall o :: o in Repr ==> o.isChecked == Some(false)
      ensures |items| > 0 && !old(AllChecked(items)) && !old(NoneChecked(items)) ==>
        isChecked == None && forall o :: o in Repr && o != this ==> o.isChecked == old(o.isChecked)
    {
      if |items| > 0 {
        var checkedChildCount := CheckedCount(items);
        CheckedCountAll(items);
        CheckedCountNone(items);
        if checkedChildCount == |items| {
          SetIsChecked(Some(true));
        } else if checkedChildCount == 0 {
          SetIsChecked(Some(false));
        } else {
          SetIsChecked(None);
        }
      }
    }

    /** RefChecked: the parent, if any, refreshes. */
    method RefChecked()
      requires parent.Some? ==> parent.value.Valid()
      modifies (if parent.Some? then parent.value.Repr else {})`isChecked
      ensures parent == old(parent)
      ensures parent.Some? ==> var p := parent.value;
        p.Valid() && p.items == old(p.items)
        && (|p.items| == 0 ==> forall o :: o in p.Repr ==> o.isChecked == old(o.isChecked))
        && (|p.items| > 0 && old(AllChecked(p.items)) ==> forall o :: o in p.Repr ==> o.isChecked == Some(true))
        && (|p.items| > 0 && old(NoneChecked(p.items)) ==> forall o :: o in p.Repr ==> o.isChecked == Some(false))
        && (|p.items| > 0 && !old(AllChecked(p.items)) && !old(NoneChecked(p.items)) ==>
              p.isChecked == None && forall o :: o in p.Repr && o != p ==> o.isChecked == old(o.isChecked))
    {
      if parent.Some? {
        parent.value.Refresh();
      }
    }
  }

  /** Every child is checked. */
  ghost predicate AllChecked(s: seq<Project>)
    reads s
  {
    forall i :: 0 <= i < |s| ==> s[i].isChecked == Some(true)
  }

  /** No child is checked (each is unchecked or indeterminate). */
  ghost predicate NoneChecked(s: seq<Project>)
    reads s
  {
    forall i :: 0 <= i < |s| ==> s[i].isChecked != Some(true)
  }

  /** Items.Count(i => i.IsChecked == true) */
  function CheckedCount(s: seq<Project>): (n: nat)
    reads s
    ensures n <= |s|
  {
    if |s| == 0 then 0
    else CheckedCount(s[..|s| - 1]) + if s[|s| - 1].isChecked == Some(true) then 1 else 0
  }

  /** The count equals the number of children exactly when every child is checked. */
  lemma {:induction false} CheckedCountAll(s: seq<Project>)
    ensures CheckedCount(s) == |s| <==> AllChecked(s)
    decreases |s|
  {
    if |s| > 0 {
      var front := s[..|s| - 1];
      CheckedCountAll(front);
      assert forall i :: 0 <= i < |front| ==> front[i] == s[i];
    }
  }

  /** The count is zero exactly when no child is checked. */
  lemma {:induction false} CheckedCountNone(s: seq<Project>)
    ensures CheckedCount(s) == 0 <==> NoneChecked(s)
    decreases |s|
  {
    if |s| > 0 {
      var front := s[..|s| - 1];
      CheckedCountNone(front);
      assert forall i :: 0 <= i < |front| ==> front[i] == s[i];
    }
  }
  // =====================================================================
  // Nuget / RefNuget

  class Nuget {
    // NugetInfo<RefNugetInfo>, which Nuget derives from
    var name: Option<string>
    var path: Option<FilePath>
    var nugetVersion: Option<string>
    var dataItems: seq<NugetInfo>
    // RefNuget
    var refVersion: Option<string>
    var parent: Option<Nuget>
    // the check tree
    var isChecked: Option<bool>
    var items: seq<Nuget>
    ghost var Repr: set<Nuget>

    /** The node and the nodes below it: each child's nodes lie inside the node's, without the
        node itself, and the node's footprint is exactly itself and its children's. */
    ghost predicate Valid()
      reads this`Repr, this`items, Repr`Repr, Repr`items
      decreases Repr
    {
      this in Repr
      && (forall k :: 0 <= k < |items| ==>
            items[k] in Repr && items[k].Repr <= Repr && this !in items[k].Repr && items[k].Valid())
      && Repr == {this} + NugetsUnder(items, |items|)
    }

    /** The nodes below the first n children, those children included. */
    static ghost function NugetsUnder(s: seq<Nuget>, n: nat): set<Nuget>
      requires n <= |s|
      reads s`Repr
    {
      if n == 0 then {} else NugetsUnder(s, n - 1) + s[n - 1].Repr
    }

    /** A node among those below the first n children is below one of them. */
    static lemma {:induction false} NugetsUnderMember(s: seq<Nuget>, n: nat, x: Nuget) returns (k: nat)
      requires n <= |s| && x in NugetsUnder(s, n)
      ensures k < n && x in s[k].Repr
      decreases n
    {
      if x in s[n - 1].Repr {
        k := n - 1;
      } else {
        k := NugetsUnderMember(s, n - 1, x);
      }
    }

    /** Appending a child leaves the nodes below the earlier ones as they were. */
    static lemma {:induction false} NugetsUnderSnoc(s: seq<Nuget>, c: Nuget, n: nat)
      requires n <= |s|
      ensures NugetsUnder(s + [c], n) == NugetsUnder(s, n)
      decreases n
    {
      if n > 0 {
        NugetsUnderSnoc(s, c, n - 1);
        assert (s + [c])[n - 1] == s[n - 1];
      }
    }

    /** Every node other than this one is below one of the children. */
    lemma Covered()
      requires Valid()
      ensures forall o :: o in Repr && o != this ==> exists k :: 0 <= k < |items| && o in items[k].Repr
    {
      forall o | o in Repr && o != this
        ensures exists k :: 0 <= k < |items| && o in items[k].Repr
      {
        var k := NugetsUnderMember(items, |items|, o);
      }
    }

    /** Nuget(data) and RefNuget(data): unchecked and without children, with the path, name,
        version and data items of `data`. */
    constructor (data: NugetInfo)
      ensures Valid() && fresh(Repr) && Repr == {this}
      ensures isChecked == Some(false) && items == [] && parent == None && refVersion == None
      ensures name == data.name && path == data.path && dataItems == data.items
      ensures nugetVersion == data.nugetVersion
    {
      name, path, dataItems, nugetVersion := data.name, data.path, data.items, data.nugetVersion;
      refVersion, parent := None, None;
      isChecked, items := Some(false), [];
      Repr := {this};
    }

    /** RefNuget(parent, data): Nuget(data), then the parent is kept. */
    constructor Ref(parent: Option<Nuget>, data: NugetInfo)
      ensures Valid() && fresh(Repr) && Repr == {this}
      ensures isChecked == Some(false) && items == [] && this.parent == parent && refVersion == None
      ensures name == data.name && path == data.path && dataItems == data.items
      ensures nugetVersion == data.nugetVersion
    {
      name, path, dataItems, nugetVersion := data.name, data.path, data.items, data.nugetVersion;
      refVersion, this.parent := None, parent;
      isChecked, items := Some(false), [];
      Repr := {this};
    }

    /** Items.Add(child): the child becomes the last one. */
    method AddItem(child: Nuget)
      requires Valid() && child.Valid() && this !in child.Repr
      modifies this`Repr, this`items
      ensures Valid() && Repr == old(Repr) + child.Repr && items == old(items) + [child]
      ensures isChecked == old(isChecked)
    {
      NugetsUnderSnoc(items, child, |items|);
      ghost var below := NugetsUnder(items + [child], |items| + 1);
      assert below == NugetsUnder(items, |items|) + child.Repr;
      Repr := Repr + child.Repr;
      items := items + [child];
      assert NugetsUnder(items, |items|) == below;
    }

    /** The IsChecked setter: the node takes the value, then UpdateChild. */
    method SetIsChecked(value: Option<bool>)
      requires Valid()
      modifies Repr`isChecked
      ensures isChecked == value
      ensures value.Some? ==> forall o :: o in Repr ==> o.isChecked == value
      ensures value.None? ==> forall o :: o in Repr && o != this ==> o.isChecked == old(o.isChecked)
      decreases Repr, 1
    {
      isChecked := value;
      UpdateChild(value);
    }

    /** UpdateChild: a definite value is set on every child in turn, and so on every node below
        this one; an indeterminate one changes nothing. The node's own state is left alone. */
    method UpdateChild(value: Option<bool>)
      requires Valid()
      modifies Repr`isChecked
      ensures isChecked == old(isChecked)
      ensures value.Some? ==> forall o :: o in Repr && o != this ==> o.isChecked == value
      ensures value.None? ==> forall o :: o in Repr ==> o.isChecked == old(o.isChecked)
      decreases Repr, 0
    {
      if value.None? {
        return;
      }
      var i := 0;
      while i < |items|
        invariant 0 <= i <= |items| && isChecked == old(isChecked)
        invariant forall k, o :: 0 <= k < i && o in items[k].Repr ==> o.isChecked == value
      {
        items[i].SetIsChecked(Some(value.value));
        i := i + 1;
      }
      Covered();
    }

    /** Refresh (UpdateCheckedAll): with children, the node becomes checked when all of them are,
        unchecked when none is (both forced below it), indeterminate otherwise; without
        children nothing changes. The reference version is untouched. */
    method Refresh()
      requires Valid()
      modifies Repr`isChecked
      ensures Valid() && refVersion == old(refVersion) && items == old(items)
      ensures |items| == 0 ==> forall o :: o in Repr ==> o.isChecked == old(o.isChecked)
      ensures |items| > 0 && old(NugetsAllChecked(items)) ==> forall o :: o in Repr ==> o.isChecked == Some(true)
      ensures |items| > 0 && old(NugetsNoneChecked(items)) ==> forall o :: o in Repr ==> o.isChecked == Some(false)
      ensures |items| > 0 && !old(NugetsAllChecked(items)) && !old(NugetsNoneChecked(items)) ==>
        isChecked == None && forall o :: o in Repr && o != this ==> o.isChecked == old(o.isChecked)
    {
      if |items| > 0 {
        var checkedChildCount := NugetCheckedCount(items);
        NugetCheckedCountAll(items);
        NugetCheckedCountNone(items);
        if checkedChildCount == |items| {
          SetIsChecked(Some(true));
        } else if checkedChildCount == 0 {
          SetIsChecked(Some(false));
        } else {
          SetIsChecked(None);
        }
      }
    }

    /** RefChecked: the parent, if any, refreshes. */
    method RefChecked()
      requires parent.Some? ==> parent.value.Valid()
      modifies (if parent.Some? then parent.value.Repr else {})`isChecked
      ensures parent == old(parent)
      ensures parent.Some? ==> var p := parent.value;
        p.Valid() && p.items == old(p.items)
        && (|p.items| == 0 ==> forall o :: o in p.Repr ==> o.isChecked == old(o.isChecked))
        && (|p.items| > 0 && old(NugetsAllChecked(p.items)) ==> forall o :: o in p.Repr ==> o.isChecked == Some(true))
        && (|p.items| > 0 && old(NugetsNoneChecked(p.items)) ==> forall o :: o in p.Repr ==> o.isChecked == Some(false))
        && (|p.items| > 0 && !old(NugetsAllChecked(p.items)) && !old(NugetsNoneChecked(p.items)) ==>
              p.isChecked == None && forall o :: o in p.Repr && o != p ==> o.isChecked == old(o.isChecked))
    {
      if parent.Some? {
        parent.value.Refresh();
      }
    }
  }


  /** Every child package is checked. */
  ghost predicate NugetsAllChecked(s: seq<Nuget>)
    reads s
  {
    forall i :: 0 <= i < |s| ==> s[i].isChecked == Some(true)
  }

  /** No child package is checked. */
  ghost predicate NugetsNoneChecked(s: seq<Nuget>)
    reads s
  {
    forall i :: 0 <= i < |s| ==> s[i].isChecked != Some(true)
  }

  /** Items.Count(i => i.IsChecked == true), over packages */
  function NugetCheckedCount(s: seq<Nuget>): (n: nat)
    reads s
    ensures n <= |s|
  {
    if |s| == 0 then 0
    else NugetCheckedCount(s[..|s| - 1]) + if s[|s| - 1].isChecked == Some(true) then 1 else 0
  }

  /** The count equals the number of children exactly when every child is checked. */
  lemma {:induction false} NugetCheckedCountAll(s: seq<Nuget>)
    ensures NugetCheckedCount(s) == |s| <==> NugetsAllChecked(s)
    decreases |s|
  {
    if |s| > 0 {
      var front := s[..|s| - 1];
      NugetCheckedCountAll(front);
      assert forall i :: 0 <= i < |front| ==> front[i] == s[i];
    }
  }

  /** The count is zero exactly when no child is checked. */
  lemma {:induction false} NugetCheckedCountNone(s: seq<Nuget>)
    ensures NugetCheckedCount(s) == 0 <==> NugetsNoneChecked(s)
    decreases |s|
  {
    if |s| > 0 {
      var front := s[..|s| - 1];
      NugetCheckedCountNone(front);
      assert forall i :: 0 <= i < |front| ==> front[i] == s[i];
    }
  }
}
