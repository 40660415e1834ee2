/** The application manager: parsing the text printed by
    `pm list packages -3` (user packages) and `pm list packages -s` (system
    packages) into records, merging and sorting them, the search filter, and
    the rules for offering an uninstall and reading its result. Running the
    commands on the device is left out: each command is represented by the
    text it printed, or by the fact that it failed. */
module Apps {
  import opened Strings
  import Sorting

  datatype AppInfo = AppInfo(packageName: string, isSystem: bool)

  const PackagePrefix: string := "package:"

  /** The lines of the command output that name a package. */
  function PackageLines(lines: seq<string>): (r: seq<string>)
    ensures forall k :: 0 <= k < |r| ==> StartsWith(r[k], PackagePrefix)
    ensures forall x :: multiset(r)[x] == if StartsWith(x, PackagePrefix) then multiset(lines)[x] else 0
    decreases |lines|
  {
    if |lines| == 0 then []
    else
      assert lines == [lines[0]] + lines[1..];
      (if StartsWith(lines[0], PackagePrefix) then [lines[0]] else []) + PackageLines(lines[1..])
  }

  /** One package line as a record: the first `package:` is replaced by
      nothing and the rest trimmed. */
  function ToApp(line: string, isSystem: bool): AppInfo {
    AppInfo(Trim(ReplaceFirst(line, PackagePrefix, "")), isSystem)
  }

  function ToApps(lines: seq<string>, isSystem: bool): (r: seq<AppInfo>)
    ensures |r| == |lines|
    ensures forall k :: 0 <= k < |r| ==> r[k] == ToApp(lines[k], isSystem)
    decreases |lines|
  {
    if |lines| == 0 then [] else [ToApp(lines[0], isSystem)] + ToApps(lines[1..], isSystem)
  }

  /** `output.split('\n').filter(line => line.startsWith('package:')).map(...)`:
      one record per package line, named by the trimmed text after the
      prefix, and flagged with the list it came from. */
  function ParsePackages(output: string, isSystem: bool): (apps: seq<AppInfo>)
    ensures |apps| == |PackageLines(Split(output, '\n'))|
    ensures forall k :: 0 <= k < |apps| ==>
      apps[k] == AppInfo(Trim(PackageLines(Split(output, '\n'))[k][|PackagePrefix|..]), isSystem)
  {
    var lines := PackageLines(Split(output, '\n'));
    ToAppsOfPackageLines(lines, isSystem);
    ToApps(lines, isSystem)
  }

  /** On a package line, replacing the first `package:` removes the prefix. */
  lemma ToAppsOfPackageLines(lines: seq<string>, isSystem: bool)
    requires forall k :: 0 <= k < |lines| ==> StartsWith(lines[k], PackagePrefix)
    ensures forall k :: 0 <= k < |lines| ==>
      ToApp(lines[k], isSystem) == AppInfo(Trim(lines[k][|PackagePrefix|..]), isSystem)
  {
    forall k | 0 <= k < |lines|
      ensures ToApp(lines[k], isSystem) == AppInfo(Trim(lines[k][|PackagePrefix|..]), isSystem)
    {
      assert ReplaceFirst(lines[k], PackagePrefix, "") == "" + lines[k][|PackagePrefix|..];
      assert "" + lines[k][|PackagePrefix|..] == lines[k][|PackagePrefix|..];
    }
  }

  // ---------------------------------------------------------------------------
  // Sorting by package name
  // ---------------------------------------------------------------------------

  /** `localeCompare` is left abstract: any comparator whose "not after"
      relation is a total preorder. */
  ghost predicate IsCollation(cmp: (string, string) -> int) {
    && (forall a, b :: cmp(a, b) <= 0 || cmp(b, a) <= 0)
    && (forall a, b, c :: cmp(a, b) <= 0 && cmp(b, c) <= 0 ==> cmp(a, c) <= 0)
  }

  function ByName(cmp: (string, string) -> int): (AppInfo, AppInfo) -> bool {
    (a: AppInfo, b: AppInfo) => cmp(a.packageName, b.packageName) <= 0
  }

  lemma ByNameIsTotalPreorder(cmp: (string, string) -> int)
    requires IsCollation(cmp)
    ensures Sorting.TotalPreorder(ByName(cmp))
  {
    var le := ByName(cmp);
    forall a: AppInfo, b: AppInfo ensures le(a, b) || le(b, a) {
      assert cmp(a.packageName, b.packageName) <= 0 || cmp(b.packageName, a.packageName) <= 0;
    }
    forall a: AppInfo, b: AppInfo, c: AppInfo | le(a, b) && le(b, c) ensures le(a, c) {
      assert cmp(a.packageName, b.packageName) <= 0 && cmp(b.packageName, c.packageName) <= 0;
    }
  }

  /** `apps.sort((a, b) => a.packageName.localeCompare(b.packageName))`. */
  function SortApps(apps: seq<AppInfo>, cmp: (string, string) -> int): (r: seq<AppInfo>)
    ensures multiset(r) == multiset(apps)
  {
    Sorting.InsertionSort(apps, ByName(cmp))
  }

  /** The sort is stable: packages whose names the collation calls equal
      keep their order. */
  lemma SortAppsStable(apps: seq<AppInfo>, cmp: (string, string) -> int, x: AppInfo)
    requires IsCollation(cmp)
    ensures Sorting.TiedWith(SortApps(apps, cmp), x, ByName(cmp)) == Sorting.TiedWith(apps, x, ByName(cmp))
  {
    ByNameIsTotalPreorder(cmp);
    Sorting.InsertionSortStable(apps, x, ByName(cmp));
  }

  // ---------------------------------------------------------------------------
  // Listing
  // ---------------------------------------------------------------------------

  /** What a `pm` invocation gave back: its text, or a failure. */
  datatype Spawn = Output(text: string) | Failed

  /** `listApps()`: the new list shown, or `shown` unchanged when a command
      failed (the error is only logged). The system list is only requested
      when `showSystem` is set. */
  function ListApps(shown: seq<AppInfo>, showSystem: bool, user: Spawn, system: Spawn,
                    cmp: (string, string) -> int): (r: seq<AppInfo>)
    ensures user.Failed? || (showSystem && system.Failed?) ==> r == shown
    ensures user.Output? && !showSystem ==>
      multiset(r) == multiset(ParsePackages(user.text, false))
    ensures user.Output? && showSystem && system.Output? ==>
      multiset(r) == multiset(ParsePackages(user.text, false) + ParsePackages(system.text, true))
  {
    match user
    case Failed => shown
    case Output(userText) =>
      var userApps := ParsePackages(userText, false);
      if !showSystem then SortApps(userApps, cmp)
      else
        match system
        case Failed => shown
        case Output(systemText) => SortApps(userApps + ParsePackages(systemText, true), cmp)
  }

  /** Without `showSystem` only user packages are listed. */
  lemma UserOnlyWithoutShowSystem(shown: seq<AppInfo>, userText: string, system: Spawn,
                                  cmp: (string, string) -> int)
    ensures forall k :: 0 <= k < |ListApps(shown, false, Output(userText), system, cmp)| ==>
      !ListApps(shown, false, Output(userText), system, cmp)[k].isSystem
  {
    var r := ListApps(shown, false, Output(userText), system, cmp);
    var parsed := ParsePackages(userText, false);
    SameFlags(r, parsed, false);
  }

  /** A permutation of records that all carry `flag` carries `flag` throughout. */
  lemma SameFlags(xs: seq<AppInfo>, ys: seq<AppInfo>, flag: bool)
    requires multiset(xs) == multiset(ys)
    requires forall k :: 0 <= k < |ys| ==> ys[k].isSystem == flag
    ensures forall k :: 0 <= k < |xs| ==> xs[k].isSystem == flag
  {
    forall k | 0 <= k < |xs| ensures xs[k].isSystem == flag {
      assert xs[k] in multiset(ys);
      var j :| 0 <= j < |ys| && ys[j] == xs[k];
    }
  }

  /** A new list is sorted by package name under the collation. */
  lemma ListAppsSorted(shown: seq<AppInfo>, showSystem: bool, user: Spawn, system: Spawn,
                       cmp: (string, string) -> int)
    requires IsCollation(cmp)
    requires user.Output? && (showSystem ==> system.Output?)
    ensures Sorting.SortedBy(ListApps(shown, showSystem, user, system, cmp), ByName(cmp))
  {
    ByNameIsTotalPreorder(cmp);
    var userApps := ParsePackages(user.text, false);
    if showSystem {
      Sorting.InsertionSortSorted(userApps + ParsePackages(system.text, true), ByName(cmp));
    } else {
      Sorting.InsertionSortSorted(userApps, ByName(cmp));
    }
  }

  // ---------------------------------------------------------------------------
  // Search filter
  // ---------------------------------------------------------------------------

  /** `xs` is `ys` with some elements left out, order kept. */
  predicate IsSubsequence<T(==)>(xs: seq<T>, ys: seq<T>)
    decreases |ys|
  {
    |xs| == 0 ||
    (|ys| > 0 &&
      if xs[0] == ys[0] then IsSubsequence(xs[1..], ys[1..]) else IsSubsequence(xs, ys[1..]))
  }

  /** The search box test: the lower-cased name includes the lower-cased filter. */
  predicate Matches(app: AppInfo, filter: string) {
    Includes(Lower(app.packageName), Lower(filter))
  }

  /** `apps.filter(app => app.packageName.toLowerCase().includes(filter.toLowerCase()))`. */
  function FilterApps(apps: seq<AppInfo>, filter: string): (r: seq<AppInfo>)
    ensures forall x :: x in r <==> x in apps && Matches(x, filter)
    ensures forall x :: multiset(r)[x] == if Matches(x, filter) then multiset(apps)[x] else 0
    ensures IsSubsequence(r, apps)
    decreases |apps|
  {
    if |apps| == 0 then []
    else
      var rest := FilterApps(apps[1..], filter);
      assert apps == [apps[0]] + apps[1..];
      assert forall x :: x in apps <==> x == apps[0] || x in apps[1..];
      if Matches(apps[0], filter) then [apps[0]] + rest
      else rest
  }

  /** An empty search keeps every app. */
  lemma EmptyFilterKeepsAll(apps: seq<AppInfo>)
    ensures FilterApps(apps, "") == apps
    decreases |apps|
  {
    if |apps| > 0 {
      IncludesEmpty(Lower(apps[0].packageName));
      assert Lower("") == "";
      EmptyFilterKeepsAll(apps[1..]);
      assert apps == [apps[0]] + apps[1..];
    }
  }

  // ---------------------------------------------------------------------------
  // Uninstall
  // ---------------------------------------------------------------------------

  /** The uninstall button is shown for user packages only. */
  predicate UninstallOffered(app: AppInfo) {
    !app.isSystem
  }

  /** The text `pm uninstall` printed counts as success when it includes `Success`. */
  predicate UninstallSucceeded(output: string) {
    Includes(output, "Success")
  }

  /** Success means `Success` occurs somewhere in the output, anywhere in it. */
  lemma UninstallSucceededIff(output: string)
    ensures UninstallSucceeded(output) <==> exists i :: OccursAt(output, "Success", i)
  {
    IncludesIffOccurs(output, "Success");
  }

  /** No system package parsed from `pm list packages -s` is offered for
      uninstalling, and every user package is. */
  lemma UninstallOfferedByList(output: string)
    ensures forall k :: 0 <= k < |ParsePackages(output, true)| ==>
      !UninstallOffered(ParsePackages(output, true)[k])
    ensures forall k :: 0 <= k < |ParsePackages(output, false)| ==>
      UninstallOffered(ParsePackages(output, false)[k])
  {
  }
}
