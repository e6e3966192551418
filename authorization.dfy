/**
 * File authorization for the p5.io file and folder events.
 *
 * A path is first checked for sanity, then, unless the caller's ticket has
 * the role "root", against built-in policies (other users' folders, the
 * database folder, configuration files, the authentication file, the user's
 * own folder and the common folder) and finally against the access list: a
 * list of access objects, each named by the role it applies to ("*" for
 * every role), whose first child names an allow or deny right for an
 * operation and holds the path prefix it covers.
 *
 * The lookups the source makes through active events (the access list, the
 * configured database path, the name of the authentication file) and the
 * caller's ticket are given as a Context value.
 */
module Authorization {
  import opened Wrappers

  /* ---------- Strings ---------- */

  /** `s.StartsWithEx(prefix)`: ordinal prefix test. */
  predicate StartsWith(s: string, prefix: string)
  {
    prefix <= s
  }

  predicate EndsWith(s: string, suffix: string)
  {
    |suffix| <= |s| && s[|s| - |suffix|..] == suffix
  }

  /** `s.Contains(t)`: `t` occurs somewhere in `s`. */
  predicate Contains(s: string, t: string)
    decreases |s|
  {
    if |s| < |t| then false else StartsWith(s, t) || Contains(s[1..], t)
  }

  /** Two-character patterns occur exactly where two neighbouring characters spell them. */
  lemma {:induction false} ContainsPair(s: string, a: char, b: char)
    ensures Contains(s, [a, b]) <==> exists i :: 0 <= i < |s| - 1 && s[i] == a && s[i + 1] == b
    decreases |s|
  {
    if |s| >= 2 {
      ContainsPair(s[1..], a, b);
      assert StartsWith(s, [a, b]) <==> s[0] == a && s[1] == b by {
        if s[0] == a && s[1] == b {
          assert s[..2] == [a, b];
        }
      }
      if Contains(s[1..], [a, b]) {
        var i :| 0 <= i < |s| - 2 && s[1..][i] == a && s[1..][i + 1] == b;
        assert s[i + 1] == a && s[i + 2] == b;
      }
      if exists i :: 0 <= i < |s| - 1 && s[i] == a && s[i + 1] == b {
        var i :| 0 <= i < |s| - 1 && s[i] == a && s[i + 1] == b;
        if i > 0 {
          assert s[1..][i - 1] == a && s[1..][i - 1 + 1] == b;
        }
      }
    }
  }

  /** One-character patterns occur exactly where the character does. */
  lemma {:induction false} ContainsChar(s: string, a: char)
    ensures Contains(s, [a]) <==> exists i :: 0 <= i < |s| && s[i] == a
    decreases |s|
  {
    if |s| >= 1 {
      ContainsChar(s[1..], a);
      assert StartsWith(s, [a]) <==> s[0] == a by {
        if s[0] == a {
          assert s[..1] == [a];
        }
      }
      if Contains(s[1..], [a]) {
        var i :| 0 <= i < |s| - 1 && s[1..][i] == a;
        assert s[i + 1] == a;
      }
      if exists i :: 0 <= i < |s| && s[i] == a {
        var i :| 0 <= i < |s| && s[i] == a;
        if i > 0 {
          assert s[1..][i - 1] == a;
        }
      }
    }
  }

  function LowerChar(c: char): char
  {
    if 'A' <= c <= 'Z' then (c as int + 32) as char else c
  }

  /** `ToLowerInvariant()` / `ToLower()` on the ASCII letters. */
  function Lower(s: string): (r: string)
    ensures |r| == |s|
    ensures forall i :: 0 <= i < |s| ==> r[i] == LowerChar(s[i])
  {
    if s == [] then [] else [LowerChar(s[0])] + Lower(s[1..])
  }

  /** Lowering a string that is lowered already changes nothing. */
  lemma LowerIdempotent(s: string)
    ensures Lower(Lower(s)) == Lower(s)
  {
  }

  /**
   * `Path.GetExtension(path)`: from the last '.' to the end, when that dot
   * comes after the last directory or volume separator and is not the last
   * character; otherwise empty.
   */
  function Extension(path: string): (r: string)
    ensures EndsWith(path, r)
    ensures r != "" ==> |r| >= 2 && r[0] == '.' && forall j :: 1 <= j < |r| ==> r[j] != '.' && !Separator(r[j])
  {
    ExtensionBefore(path, |path|)
  }

  /** The directory and volume separators Path.GetExtension stops at. */
  predicate Separator(c: char)
  {
    c == '/' || c == '\\' || c == ':'
  }

  /** The scan of Path.GetExtension from position `i` backwards, past characters that are neither '.' nor separators. */
  function ExtensionBefore(path: string, i: nat): (r: string)
    requires i <= |path|
    requires forall j :: i <= j < |path| ==> path[j] != '.' && !Separator(path[j])
    ensures EndsWith(path, r)
    ensures r != "" ==> |r| >= 2 && r[0] == '.' && forall j :: 1 <= j < |r| ==> r[j] != '.' && !Separator(r[j])
    decreases i
  {
    if i == 0 then ""
    else
      var c := path[i - 1];
      if c == '.' then (if i != |path| then path[i - 1..] else "")
      else if Separator(c) then ""
      else ExtensionBefore(path, i - 1)
  }

  /** The extension is ".config" exactly when the path ends with ".config". */
  lemma ConfigExtension(path: string)
    ensures Extension(path) == ".config" <==> EndsWith(path, ".config")
  {
    if EndsWith(path, ".config") {
      ConfigSuffixScanned(path);
    }
    if Extension(path) == ".config" {
      assert EndsWith(path, Extension(path));
    }
  }

  /** The backward scan walks over "config" and stops at the dot before it. */
  lemma ConfigSuffixScanned(path: string)
    requires EndsWith(path, ".config")
    ensures Extension(path) == ".config"
  {
    var n := |path|;
    assert path[n - 7..] == ".config";
    assert path[n - 1] == 'g' && path[n - 2] == 'i' && path[n - 3] == 'f';
    assert path[n - 4] == 'n' && path[n - 5] == 'o' && path[n - 6] == 'c' && path[n - 7] == '.';
    assert forall j :: n - 6 <= j < n ==> path[j] != '.' && !Separator(path[j]);
    calc {
      ExtensionBefore(path, n);
      ExtensionBefore(path, n - 1);
      ExtensionBefore(path, n - 2);
      ExtensionBefore(path, n - 3);
      ExtensionBefore(path, n - 4);
      ExtensionBefore(path, n - 5);
      ExtensionBefore(path, n - 6);
      path[n - 7..];
    }
  }

  /* ---------- Path sanity ---------- */

  /** VerifySaneFileName: non-empty, rooted, and free of "//", "\" and "..". */
  function SaneFileName(filename: string): (r: bool)
    ensures r <==> SaneFileChars(filename)
  {
    ContainsPair(filename, '/', '/');
    ContainsChar(filename, '\\');
    ContainsPair(filename, '.', '.');
    if filename == "" then false
    else if filename[0] != '/' then false
    else if Contains(filename, "//") then false
    else if Contains(filename, "\\") then false
    else if Contains(filename, "..") then false
    else true
  }

  /** A sane file name, character by character. */
  predicate SaneFileChars(s: string)
  {
    && |s| > 0 && s[0] == '/'
    && (forall i :: 0 <= i < |s| ==> s[i] != '\\')
    && (forall i :: 0 <= i < |s| - 1 ==> !(s[i] == '/' && s[i + 1] == '/'))
    && (forall i :: 0 <= i < |s| - 1 ==> !(s[i] == '.' && s[i + 1] == '.'))
  }

  /** VerifySaneFolderName: a sane file name that ends with '/'. */
  function SaneFolderName(foldername: string): (r: bool)
    ensures r <==> SaneFileChars(foldername) && foldername[|foldername| - 1] == '/'
  {
    if !SaneFileName(foldername) then false
    else if foldername[|foldername| - 1] != '/' then false
    else true
  }

  /** Every sane folder name is a sane file name. */
  lemma SaneFolderIsSaneFile(s: string)
    requires SaneFolderName(s)
    ensures SaneFileName(s)
  {
  }

  /* ---------- Access objects ---------- */

  /** A child of an access object: a right such as `p5.io.allow-read`, holding a path. */
  datatype Right = Right(name: string, value: string)

  /** An access object: named by the role it applies to, or "*". */
  datatype Entry = Entry(name: string, children: seq<Right>)

  function AllowName(op: string): string { "p5.io.allow-" + op }

  function DenyName(op: string): string { "p5.io.deny-" + op }

  predicate HasChild(e: Entry, name: string)
  {
    exists c :: c in e.children && c.name == name
  }

  /** The entry has a first child, whose value is its path. */
  predicate HasPath(e: Entry)
  {
    |e.children| > 0
  }

  function PathOf(e: Entry): string
    requires HasPath(e)
  {
    e.children[0].value
  }

  /** The first filter: the entry applies to every role or to the caller's. */
  predicate RoleMatches(e: Entry, role: string)
  {
    e.name == "*" || e.name == role
  }

  /** The second filter: the entry has an allow or a deny right for `op`. */
  predicate HandlesOp(e: Entry, op: string)
  {
    HasChild(e, AllowName(op)) || HasChild(e, DenyName(op))
  }

  /** The third filter: the path lies under the entry's path. */
  predicate Covers(e: Entry, path: string)
  {
    HasPath(e) && StartsWith(path, PathOf(e))
  }

  /** An entry that survives all three filters. */
  predicate Relevant(e: Entry, role: string, op: string, path: string)
  {
    RoleMatches(e, role) && HandlesOp(e, op) && Covers(e, path)
  }

  /** The condition of one RemoveAll call, stated as what it keeps. */
  datatype Criterion = RoleIs(role: string) | Handles(op: string) | Within(path: string)

  predicate Meets(e: Entry, c: Criterion)
  {
    match c
    case RoleIs(role) => RoleMatches(e, role)
    case Handles(op) => HandlesOp(e, op)
    case Within(path) => Covers(e, path)
  }

  /** `access.RemoveAll(x => !Meets(x, c))`: the entries that meet `c`, in order. */
  function Filter(s: seq<Entry>, c: Criterion): (r: seq<Entry>)
    ensures |r| <= |s|
  {
    if s == [] then []
    else (if Meets(s[0], c) then [s[0]] else []) + Filter(s[1..], c)
  }

  /** The filter keeps exactly the entries that meet the criterion. */
  lemma {:induction false} FilterMembers(s: seq<Entry>, c: Criterion)
    ensures forall e :: e in Filter(s, c) <==> e in s && Meets(e, c)
    decreases |s|
  {
    if s != [] {
      assert s == [s[0]] + s[1..];
      FilterMembers(s[1..], c);
    }
  }

  lemma FilterCons(x: Entry, s: seq<Entry>, c: Criterion)
    ensures Filter([x] + s, c) == (if Meets(x, c) then [x] else []) + Filter(s, c)
  {
    assert ([x] + s)[0] == x && ([x] + s)[1..] == s;
  }

  lemma {:induction false} FilterAppend(a: seq<Entry>, b: seq<Entry>, c: Criterion)
    ensures Filter(a + b, c) == Filter(a, c) + Filter(b, c)
    decreases |a|
  {
    if a == [] {
      assert a + b == b;
    } else {
      var x, t := a[0], a[1..];
      assert a == [x] + t && a + b == [x] + (t + b);
      FilterCons(x, t, c);
      FilterCons(x, t + b, c);
      FilterAppend(t, b, c);
    }
  }

  /** The access objects left after the three RemoveAll calls. */
  function Survivors(access: seq<Entry>, role: string, op: string, path: string): seq<Entry>
  {
    Filter(Filter(Filter(access, RoleIs(role)), Handles(op)), Within(path))
  }

  /** An entry survives the filters exactly when it is in the list and satisfies all three. */
  lemma SurvivorsRelevant(access: seq<Entry>, role: string, op: string, path: string)
    ensures forall e :: e in Survivors(access, role, op, path) <==> e in access && Relevant(e, role, op, path)
  {
    var s1 := Filter(access, RoleIs(role));
    var s2 := Filter(s1, Handles(op));
    FilterMembers(access, RoleIs(role));
    FilterMembers(s1, Handles(op));
    FilterMembers(s2, Within(path));
  }
  /* ---------- Ordering ---------- */

  /** Ordinal comparison of two strings: -1, 0 or 1. */
  function CompareOrdinal(x: string, y: string): (r: int)
    ensures -1 <= r <= 1
    ensures r == 0 <==> x == y
  {
    if x == [] && y == [] then 0
    else if x == [] then -1
    else if y == [] then 1
    else if x[0] < y[0] then -1
    else if x[0] > y[0] then 1
    else
      var r := CompareOrdinal(x[1..], y[1..]);
      assert r == 0 ==> x == [x[0]] + x[1..] == [y[0]] + y[1..] == y;
      r
  }

  lemma {:induction false} CompareOrdinalFlip(x: string, y: string)
    ensures CompareOrdinal(x, y) == -CompareOrdinal(y, x)
    decreases |x|
  {
    if x != [] && y != [] && x[0] == y[0] {
      CompareOrdinalFlip(x[1..], y[1..]);
    }
  }

  lemma {:induction false} CompareOrdinalTrans(x: string, y: string, z: string)
    requires CompareOrdinal(x, y) <= 0 && CompareOrdinal(y, z) <= 0
    ensures CompareOrdinal(x, z) <= 0
    decreases |x|
  {
    if x != [] && y != [] && z != [] && x[0] == y[0] == z[0] {
      CompareOrdinalTrans(x[1..], y[1..], z[1..]);
    }
  }

  /** The path of an entry as the case-insensitive comparison sees it. */
  function SortKey(e: Entry): string
    requires HasPath(e)
  {
    Lower(PathOf(e))
  }

  /**
   * The comparison delegate of the Sort: paths compared case-insensitively,
   * and on equal paths every "*" entry before every role-specific one.
   */
  function Compare(lhs: Entry, rhs: Entry): (r: int)
    requires HasPath(lhs) && HasPath(rhs)
    ensures -1 <= r <= 1
    ensures r == 0 <==> SortKey(lhs) == SortKey(rhs) && (lhs.name == "*" <==> rhs.name == "*")
    ensures SortKey(lhs) != SortKey(rhs) ==> r == CompareOrdinal(SortKey(lhs), SortKey(rhs))
  {
    var retVal := CompareOrdinal(SortKey(lhs), SortKey(rhs));
    if retVal == 0 then
      if lhs.name == "*" && rhs.name != "*" then -1
      else if lhs.name != "*" && rhs.name == "*" then 1
      else retVal
    else retVal
  }

  /** The comparison is antisymmetric ... */
  lemma CompareFlip(a: Entry, b: Entry)
    requires HasPath(a) && HasPath(b)
    ensures Compare(a, b) == -Compare(b, a)
  {
    CompareOrdinalFlip(SortKey(a), SortKey(b));
  }

  /** ... and transitive, so sorting by it is well defined up to ties. */
  lemma CompareTrans(a: Entry, b: Entry, c: Entry)
    requires HasPath(a) && HasPath(b) && HasPath(c)
    requires Compare(a, b) <= 0 && Compare(b, c) <= 0
    ensures Compare(a, c) <= 0
  {
    CompareOrdinalTrans(SortKey(a), SortKey(b), SortKey(c));
    if CompareOrdinal(SortKey(a), SortKey(c)) == 0 {
      CompareOrdinalFlip(SortKey(a), SortKey(b));
    }
  }

  predicate AllHavePath(s: seq<Entry>)
  {
    forall i :: 0 <= i < |s| ==> HasPath(s[i])
  }

  predicate Sorted(s: seq<Entry>)
    requires AllHavePath(s)
  {
    forall i, j :: 0 <= i < j < |s| ==> Compare(s[i], s[j]) <= 0
  }

  /** Inserts `x` into a sorted list in front of the first entry it does not follow. */
  function Insert(x: Entry, s: seq<Entry>): (r: seq<Entry>)
    requires HasPath(x) && AllHavePath(s)
    ensures multiset(r) == multiset(s) + multiset{x}
    ensures |r| == |s| + 1 && AllHavePath(r)
  {
    if s == [] then [x]
    else if Compare(x, s[0]) <= 0 then [x] + s
    else
      assert s == [s[0]] + s[1..];
      [s[0]] + Insert(x, s[1..])
  }

  lemma {:induction false} InsertSorted(x: Entry, s: seq<Entry>)
    requires HasPath(x) && AllHavePath(s) && Sorted(s)
    ensures Sorted(Insert(x, s))
    decreases |s|
  {
    if s != [] {
      var r := Insert(x, s);
      if Compare(x, s[0]) <= 0 {
        forall i, j | 0 <= i < j < |r|
          ensures Compare(r[i], r[j]) <= 0
        {
          if i == 0 && j > 1 {
            CompareTrans(x, s[0], s[j - 1]);
          }
        }
      } else {
        var t := Insert(x, s[1..]);
        InsertSorted(x, s[1..]);
        HeadBelowInsert(x, s);
        assert r == [s[0]] + t;
        forall i, j | 0 <= i < j < |r|
          ensures Compare(r[i], r[j]) <= 0
        {
          if i > 0 {
            assert r[i] == t[i - 1] && r[j] == t[j - 1];
          } else {
            assert r[j] == t[j - 1];
          }
        }
      }
    }
  }

  /** The head of a sorted list precedes everything once `x`, which follows it, is inserted in the rest. */
  lemma HeadBelowInsert(x: Entry, s: seq<Entry>)
    requires HasPath(x) && AllHavePath(s) && Sorted(s) && s != [] && Compare(x, s[0]) > 0
    ensures forall j :: 0 <= j < |Insert(x, s[1..])| ==> Compare(s[0], Insert(x, s[1..])[j]) <= 0
  {
    var t := Insert(x, s[1..]);
    CompareFlip(x, s[0]);
    forall j | 0 <= j < |t|
      ensures Compare(s[0], t[j]) <= 0
    {
      assert t[j] in multiset(t);
      if t[j] != x {
        assert t[j] in multiset(s[1..]);
        var k :| 0 <= k < |s[1..]| && s[1..][k] == t[j];
        assert s[k + 1] == t[j];
      }
    }
  }

  /** `access.Sort(...)`: a sorted permutation of the surviving access objects. */
  function SortAccess(s: seq<Entry>): (r: seq<Entry>)
    requires AllHavePath(s)
    ensures multiset(r) == multiset(s)
    ensures |r| == |s| && AllHavePath(r) && Sorted(r)
  {
    if s == [] then []
    else
      assert s == [s[0]] + s[1..];
      var t := SortAccess(s[1..]);
      InsertSorted(s[0], t);
      Insert(s[0], t)
  }

  /* ---------- The access-rights decision ---------- */

  /** What an access object decides: its first child allows or denies `op`, or neither. */
  function Decision(e: Entry, op: string): Option<bool>
    requires HasPath(e)
  {
    if e.children[0].name == AllowName(op) then Some(true)
    else if e.children[0].name == DenyName(op) then Some(false)
    else None
  }

  /** The foreach over the sorted access objects: the last decision wins over `default`. */
  function Decide(s: seq<Entry>, op: string, default: bool): (r: bool)
    requires AllHavePath(s)
    ensures r != default ==> exists k :: 0 <= k < |s| && Decision(s[k], op) == Some(r)
  {
    if s == [] then default
    else
      match Decision(s[|s| - 1], op)
      case Some(b) => b
      case None => Decide(s[..|s| - 1], op, default)
  }

  /** Every survivor has a path: it passed the operation filter, so it has children. */
  lemma SurvivorsHavePath(access: seq<Entry>, role: string, op: string, path: string)
    ensures AllHavePath(Survivors(access, role, op, path))
  {
    var s := Survivors(access, role, op, path);
    SurvivorsRelevant(access, role, op, path);
    forall i | 0 <= i < |s|
      ensures HasPath(s[i])
    {
      assert s[i] in s;
    }
  }

  /**
   * CheckAccessRights: `default` for an empty access list; otherwise the
   * decision of the last deciding access object among the relevant ones
   * sorted by path.
   */
  function AccessRights(access: seq<Entry>, role: string, op: string, path: string, default: bool): (r: bool)
    ensures r != default ==>
      exists e :: e in access && Relevant(e, role, op, path) && HasPath(e) && Decision(e, op) == Some(r)
  {
    if |access| == 0 then default
    else
      var survivors := Survivors(access, role, op, path);
      SortedSurvivors(access, role, op, path);
      if |survivors| == 0 then default
      else Decide(SortAccess(survivors), op, default)
  }

  /** One round of the foreach: the decision after `i + 1` entries. */
  lemma DecideStep(s: seq<Entry>, i: nat, op: string, default: bool)
    requires AllHavePath(s) && i < |s|
    ensures Decide(s[..i + 1], op, default) ==
      match Decision(s[i], op)
      case Some(b) => b
      case None => Decide(s[..i], op, default)
  {
    assert s[..i + 1][..i] == s[..i];
  }

  /** The foreach over the sorted access objects, from `hasAccess == defaultValue`. */
  method DecideInOrder(list: seq<Entry>, operation: string, defaultValue: bool) returns (hasAccess: bool)
    requires AllHavePath(list)
    ensures hasAccess == Decide(list, operation, defaultValue)
  {
    hasAccess := defaultValue;
    var i := 0;
    while i < |list|
      invariant 0 <= i <= |list|
      invariant hasAccess == Decide(list[..i], operation, defaultValue)
    {
      DecideStep(list, i, operation, defaultValue);
      if list[i].children[0].name == AllowName(operation) {
        hasAccess := true;
      } else if list[i].children[0].name == DenyName(operation) {
        hasAccess := false;
      }
      i := i + 1;
    }
    assert list[..|list|] == list;
  }

  /** Checks the access list for `operation` on `path`, starting from `defaultValue`. */
  method CheckAccessRights(access: seq<Entry>, role: string, path: string, operation: string, defaultValue: bool)
    returns (hasAccess: bool)
    ensures hasAccess == AccessRights(access, role, operation, path, defaultValue)
  {
    hasAccess := defaultValue;
    if |access| > 0 {
      var list := access;
      list := Filter(list, RoleIs(role));
      list := Filter(list, Handles(operation));
      list := Filter(list, Within(path));
      SurvivorsHavePath(access, role, operation, path);
      if |list| > 0 {
        list := SortAccess(list);
        hasAccess := DecideInOrder(list, operation, defaultValue);
      }
    }
  }

  /* ---------- Properties of the decision ---------- */

  /** Entry k decides, and no entry after it does: its decision is the one that stands. */
  predicate Stands(s: seq<Entry>, op: string, k: nat)
    requires AllHavePath(s)
  {
    && k < |s| && Decision(s[k], op).Some?
    && forall j :: k < j < |s| ==> Decision(s[j], op).None?
  }

  /** When no entry decides, the foreach leaves the default in place. */
  lemma {:induction false} DecideNone(s: seq<Entry>, op: string, default: bool)
    requires AllHavePath(s)
    requires forall i :: 0 <= i < |s| ==> Decision(s[i], op).None?
    ensures Decide(s, op, default) == default
    decreases |s|
  {
    if s != [] {
      var init := s[..|s| - 1];
      assert forall i :: 0 <= i < |init| ==> init[i] == s[i];
      DecideNone(init, op, default);
    }
  }

  /** The foreach ends with the decision of the last entry that decides. */
  lemma {:induction false} DecideStands(s: seq<Entry>, op: string, default: bool, k: nat)
    requires AllHavePath(s) && Stands(s, op, k)
    ensures Decision(s[k], op) == Some(Decide(s, op, default))
    decreases |s|
  {
    if k < |s| - 1 {
      var init := s[..|s| - 1];
      assert forall i :: 0 <= i < |init| ==> init[i] == s[i];
      assert Decision(s[|s| - 1], op).None?;
      assert Stands(init, op, k);
      DecideStands(init, op, default, k);
    }
  }

  /** Some entry decides: then one of them is the last to do so. */
  lemma LastDecider(s: seq<Entry>, op: string) returns (k: nat)
    requires AllHavePath(s)
    requires exists i :: 0 <= i < |s| && Decision(s[i], op).Some?
    ensures Stands(s, op, k)
  {
    var i :| 0 <= i < |s| && Decision(s[i], op).Some?;
    k := |s| - 1;
    while Decision(s[k], op).None?
      invariant i <= k < |s|
      invariant forall j :: k < j < |s| ==> Decision(s[j], op).None?
      decreases k
    {
      k := k - 1;
    }
  }

  /** In a sorted list, no deciding entry sorts after the one whose decision stands. */
  lemma SortedGreatest(s: seq<Entry>, op: string, default: bool) returns (k: nat)
    requires AllHavePath(s) && Sorted(s)
    requires exists i :: 0 <= i < |s| && Decision(s[i], op).Some?
    ensures k < |s| && Decision(s[k], op) == Some(Decide(s, op, default))
    ensures forall j :: 0 <= j < |s| && Decision(s[j], op).Some? ==> Compare(s[j], s[k]) <= 0
  {
    k := LastDecider(s, op);
    DecideStands(s, op, default, k);
    forall j | 0 <= j < |s| && Decision(s[j], op).Some?
      ensures Compare(s[j], s[k]) <= 0
    {
      if j == k {
        CompareFlip(s[j], s[k]);
      }
    }
  }

  /** A relevant access object that decides the operation one way or the other. */
  predicate Decides(access: seq<Entry>, role: string, op: string, path: string, e: Entry)
  {
    e in access && Relevant(e, role, op, path) && Decision(e, op).Some?
  }

  /** The sorted survivors hold exactly the relevant access objects. */
  lemma SortedSurvivors(access: seq<Entry>, role: string, op: string, path: string)
    ensures AllHavePath(Survivors(access, role, op, path))
    ensures forall e :: e in SortAccess(Survivors(access, role, op, path)) <==> e in access && Relevant(e, role, op, path)
  {
    SurvivorsRelevant(access, role, op, path);
    SurvivorsHavePath(access, role, op, path);
    var sorted := SortAccess(Survivors(access, role, op, path));
    forall e
      ensures e in sorted <==> e in Survivors(access, role, op, path)
    {
      assert e in sorted <==> e in multiset(sorted);
    }
  }

  /** With no relevant access object that decides, the default stands. */
  lemma DefaultWithoutDecider(access: seq<Entry>, role: string, op: string, path: string, default: bool)
    requires forall e :: e in access && Relevant(e, role, op, path) ==> Decision(e, op).None?
    ensures AccessRights(access, role, op, path, default) == default
  {
    SortedSurvivors(access, role, op, path);
    var survivors := Survivors(access, role, op, path);
    if |access| > 0 && |survivors| > 0 {
      var sorted := SortAccess(survivors);
      assert forall i :: 0 <= i < |sorted| ==> sorted[i] in sorted;
      DecideNone(sorted, op, default);
    }
  }

  /**
   * When some relevant access object decides, CheckAccessRights returns the
   * decision of a deciding relevant object that no other deciding relevant
   * object sorts after.  Which of several tied objects wins is left to the
   * sort, so the order of the access list matters only between tied
   * objects that disagree.
   */
  lemma GreatestDecides(access: seq<Entry>, role: string, op: string, path: string, default: bool) returns (e: Entry)
    requires exists x :: Decides(access, role, op, path, x)
    ensures Decides(access, role, op, path, e)
    ensures Decision(e, op) == Some(AccessRights(access, role, op, path, default))
    ensures forall x :: Decides(access, role, op, path, x) ==> Compare(x, e) <= 0
  {
    SortedSurvivors(access, role, op, path);
    var survivors := Survivors(access, role, op, path);
    var sorted := SortAccess(survivors);
    var x :| Decides(access, role, op, path, x);
    var i :| 0 <= i < |sorted| && sorted[i] == x;
    var k := SortedGreatest(sorted, op, default);
    e := sorted[k];
    assert e in sorted;
    forall y | Decides(access, role, op, path, y)
      ensures Compare(y, e) <= 0
    {
      var j :| 0 <= j < |sorted| && sorted[j] == y;
    }
  }

  /** With no access objects at all, or none relevant, the default stands. */
  lemma DefaultWithoutRelevant(access: seq<Entry>, role: string, op: string, path: string, default: bool)
    requires forall e :: e in access ==> !Relevant(e, role, op, path)
    ensures AccessRights(access, role, op, path, default) == default
  {
    DefaultWithoutDecider(access, role, op, path, default);
  }

  lemma FilterSingle(e: Entry, c: Criterion)
    ensures Filter([e], c) == if Meets(e, c) then [e] else []
  {
    assert [e][1..] == [];
  }

  /** An entry that fails the criterion vanishes from the filtered list. */
  lemma FilterDrop(a: seq<Entry>, e: Entry, b: seq<Entry>, c: Criterion)
    requires !Meets(e, c)
    ensures Filter(a + [e] + b, c) == Filter(a + b, c)
  {
    FilterAppend(a + [e], b, c);
    FilterAppend(a, [e], c);
    FilterAppend(a, b, c);
    FilterSingle(e, c);
    assert Filter(a, c) + [] == Filter(a, c);
  }

  /** An entry that meets the criterion stays, between what is kept around it. */
  lemma FilterKeep(a: seq<Entry>, e: Entry, b: seq<Entry>, c: Criterion)
    requires Meets(e, c)
    ensures Filter(a + [e] + b, c) == Filter(a, c) + [e] + Filter(b, c)
    ensures Filter(a + b, c) == Filter(a, c) + Filter(b, c)
  {
    FilterAppend(a + [e], b, c);
    FilterAppend(a, [e], c);
    FilterAppend(a, b, c);
    FilterSingle(e, c);
  }

  /** An entry that fails a filter leaves the survivors as they would be without it. */
  lemma SurvivorsWithout(before: seq<Entry>, e: Entry, after: seq<Entry>, role: string, op: string, path: string)
    requires !Relevant(e, role, op, path)
    ensures Survivors(before + [e] + after, role, op, path) == Survivors(before + after, role, op, path)
  {
    if !Meets(e, RoleIs(role)) {
      FilterDrop(before, e, after, RoleIs(role));
    } else {
      FilterKeep(before, e, after, RoleIs(role));
      var a1, b1 := Filter(before, RoleIs(role)), Filter(after, RoleIs(role));
      if !Meets(e, Handles(op)) {
        FilterDrop(a1, e, b1, Handles(op));
      } else {
        FilterKeep(a1, e, b1, Handles(op));
        var a2, b2 := Filter(a1, Handles(op)), Filter(b1, Handles(op));
        FilterDrop(a2, e, b2, Within(path));
        FilterAppend(a2, b2, Within(path));
      }
    }
  }

  /**
   * An access object affects the decision only if it names the caller's role
   * (or "*"), has a right for the operation, and covers the path: removing
   * one that fails any of these changes nothing.
   */
  lemma IrrelevantIgnored(before: seq<Entry>, e: Entry, after: seq<Entry>,
                          role: string, op: string, path: string, default: bool)
    requires !Relevant(e, role, op, path)
    ensures AccessRights(before + [e] + after, role, op, path, default)
         == AccessRights(before + after, role, op, path, default)
  {
    SurvivorsWithout(before, e, after, role, op, path);
  }

  /**
   * On the same path a role-specific rule overrides a "*" rule: when a
   * deciding relevant object for the caller's own role has the greatest
   * path, the decision comes from a role-specific object on that path.
   */
  lemma RoleOverridesStar(access: seq<Entry>, role: string, op: string, path: string, default: bool, r: Entry)
    requires Decides(access, role, op, path, r) && r.name != "*"
    requires forall x :: Decides(access, role, op, path, x) ==> Compare(x, r) <= 0
    ensures exists e :: (Decides(access, role, op, path, e) && e.name == role && e.name != "*"
      && SortKey(e) == SortKey(r) && Decision(e, op) == Some(AccessRights(access, role, op, path, default)))
  {
    var e := GreatestDecides(access, role, op, path, default);
    assert Compare(r, e) <= 0 && Compare(e, r) <= 0;
    CompareFlip(r, e);
    CompareOrdinalFlip(SortKey(r), SortKey(e));
  }

  /* ---------- The built-in policies ---------- */

  /** The caller's identity, from the ambient ticket. */
  datatype Ticket = Ticket(username: string, role: string)

  /**
   * What the authorizer looks up: the ticket, the access list, the
   * configured database path (if any) and the name of the authentication file.
   */
  datatype Context = Context(ticket: Ticket, access: seq<Entry>, configuredDbPath: Option<string>, authFile: string)

  /** The database path, "/db/" when none is configured. */
  function DbPath(ctx: Context): string
  {
    match ctx.configuredDbPath
    case None => "/db/"
    case Some(p) => p
  }

  /** The caller's own folder, "/users/<username>/". */
  function UserFolder(ctx: Context): string
  {
    "/users/" + ctx.ticket.username + "/"
  }

  predicate IsRoot(ctx: Context)
  {
    ctx.ticket.role == "root"
  }

  /** Under "/users/" but outside the caller's own folder. */
  predicate OtherUsersPath(ctx: Context, path: string)
  {
    StartsWith(path, "/users/") && !StartsWith(path, UserFolder(ctx))
  }

  /** Some relevant access object grants the operation. */
  predicate AllowedBy(access: seq<Entry>, role: string, op: string, path: string)
  {
    exists e :: e in access && Relevant(e, role, op, path) && HasPath(e) && Decision(e, op) == Some(true)
  }

  /** Some relevant access object denies the operation. */
  predicate DeniedBy(access: seq<Entry>, role: string, op: string, path: string)
  {
    exists e :: e in access && Relevant(e, role, op, path) && HasPath(e) && Decision(e, op) == Some(false)
  }

  /** Strictly below "/users/" but outside the caller's own folder. */
  predicate OtherUsersFolder(ctx: Context, path: string)
  {
    StartsWith(path, "/users/") && |path| > |"/users/"| && !StartsWith(path, UserFolder(ctx))
  }

  /** UserHasReadAccessToFile, for a lower-cased path; the default is to allow. */
  function UserHasReadAccessToFile(ctx: Context, path: string): (r: bool)
    ensures r ==> && !OtherUsersPath(ctx, path) && !StartsWith(path, DbPath(ctx))
                  && Extension(path) != ".config" && path != Lower(ctx.authFile)
    ensures !r ==> || OtherUsersPath(ctx, path) || StartsWith(path, DbPath(ctx))
                   || Extension(path) == ".config" || path == Lower(ctx.authFile)
                   || DeniedBy(ctx.access, ctx.ticket.role, "read", path)
  {
    if OtherUsersPath(ctx, path) then false
    else if StartsWith(path, DbPath(ctx)) then false
    else if Extension(path) == ".config" then false
    else if path == Lower(ctx.authFile) then false
    else AccessRights(ctx.access, ctx.ticket.role, "read", path, true)
  }

  /** UserHasReadAccessToFolder, for a lower-cased path: "/users/" itself is not shielded. */
  function UserHasReadAccessToFolder(ctx: Context, path: string): (r: bool)
    ensures r ==> !OtherUsersFolder(ctx, path) && !StartsWith(path, DbPath(ctx))
    ensures !r ==> || OtherUsersFolder(ctx, path) || StartsWith(path, DbPath(ctx))
                   || DeniedBy(ctx.access, ctx.ticket.role, "read", path)
  {
    if OtherUsersFolder(ctx, path) then false
    else if StartsWith(path, DbPath(ctx)) then false
    else AccessRights(ctx.access, ctx.ticket.role, "read", path, true)
  }

  /** UserHasWriteAccessToFile, for a lower-cased path; the default is to deny. */
  function UserHasWriteAccessToFile(ctx: Context, path: string): (r: bool)
    ensures StartsWith(path, UserFolder(ctx)) || StartsWith(path, "/common/") ==> r
    ensures r ==> || StartsWith(path, UserFolder(ctx)) || StartsWith(path, "/common/")
                  || AllowedBy(ctx.access, ctx.ticket.role, "write", path)
  {
    if StartsWith(path, UserFolder(ctx)) then true
    else if StartsWith(path, "/common/") then true
    else AccessRights(ctx.access, ctx.ticket.role, "write", path, false)
  }

  /**
   * UserHasWriteAccessToFolder, which no authorizer calls: it builds the
   * "own folder" from the caller's role, not from the username.
   */
  function UserHasWriteAccessToFolder(ctx: Context, path: string): (r: bool)
    ensures StartsWith(path, "/users/" + ctx.ticket.role + "/") || StartsWith(path, "/common/") ==> r
    ensures r ==> || StartsWith(path, "/users/" + ctx.ticket.role + "/") || StartsWith(path, "/common/")
                  || AllowedBy(ctx.access, ctx.ticket.role, "write", path)
  {
    if StartsWith(path, "/users/") && StartsWith(path, "/users/" + ctx.ticket.role + "/") then true
    else if StartsWith(path, "/common/") then true
    else AccessRights(ctx.access, ctx.ticket.role, "write", path, false)
  }

  /* ---------- The authorizers ---------- */

  /** Why an authorizer threw: an insane path, or a path that is off limits. */
  datatype AuthError = InvalidPath(path: string) | OffLimits(path: string)

  function AuthorizeReadFile(ctx: Context, filename: string): (r: Result<(), AuthError>)
    ensures r.Failure? ==> r.error == InvalidPath(filename) || r.error == OffLimits(filename)
  {
    if !SaneFileName(filename) then Failure(InvalidPath(filename))
    else if !IsRoot(ctx) && !UserHasReadAccessToFile(ctx, Lower(filename)) then Failure(OffLimits(filename))
    else Success(())
  }

  function AuthorizeModifyFile(ctx: Context, filename: string): (r: Result<(), AuthError>)
    ensures r.Failure? ==> r.error == InvalidPath(filename) || r.error == OffLimits(filename)
  {
    if !SaneFileName(filename) then Failure(InvalidPath(filename))
    else if !IsRoot(ctx) && !UserHasWriteAccessToFile(ctx, Lower(filename)) then Failure(OffLimits(filename))
    else Success(())
  }

  function AuthorizeReadFolder(ctx: Context, foldername: string): (r: Result<(), AuthError>)
    ensures r.Failure? ==> r.error == InvalidPath(foldername) || r.error == OffLimits(foldername)
  {
    if !SaneFolderName(foldername) then Failure(InvalidPath(foldername))
    else if !IsRoot(ctx) && !UserHasReadAccessToFolder(ctx, Lower(foldername)) then Failure(OffLimits(foldername))
    else Success(())
  }

  /** Folder modification is checked with the folder READ rule. */
  function AuthorizeModifyFolder(ctx: Context, foldername: string): (r: Result<(), AuthError>)
    ensures r.Failure? ==> r.error == InvalidPath(foldername) || r.error == OffLimits(foldername)
  {
    if !SaneFolderName(foldername) then Failure(InvalidPath(foldername))
    else if !IsRoot(ctx) && !UserHasReadAccessToFolder(ctx, Lower(foldername)) then Failure(OffLimits(foldername))
    else Success(())
  }

  /* ---------- Properties of the authorizers ---------- */

  /** Every authorizer rejects an insane path as invalid, root or not. */
  lemma InsanePathsRejected(ctx: Context, path: string)
    ensures !SaneFileChars(path) ==>
      && AuthorizeReadFile(ctx, path) == Failure(InvalidPath(path))
      && AuthorizeModifyFile(ctx, path) == Failure(InvalidPath(path))
    ensures !(SaneFileChars(path) && path[|path| - 1] == '/') ==>
      && AuthorizeReadFolder(ctx, path) == Failure(InvalidPath(path))
      && AuthorizeModifyFolder(ctx, path) == Failure(InvalidPath(path))
  {
  }

  /** A root ticket is never denied a sane path. */
  lemma RootNeverDenied(ctx: Context, path: string)
    requires IsRoot(ctx)
    ensures SaneFileChars(path) ==> AuthorizeReadFile(ctx, path).Success? && AuthorizeModifyFile(ctx, path).Success?
    ensures SaneFileChars(path) && path[|path| - 1] == '/' ==>
      AuthorizeReadFolder(ctx, path).Success? && AuthorizeModifyFolder(ctx, path).Success?
  {
  }

  /**
   * A non-root caller may not read another user's files: a path under
   * "/users/<other>/" for a different username (neither holding '/') is off
   * limits whatever the access list says.
   */
  lemma OtherUsersFilesOffLimits(ctx: Context, filename: string, other: string)
    requires !IsRoot(ctx) && SaneFileName(filename)
    requires other != ctx.ticket.username && '/' !in other && '/' !in ctx.ticket.username
    requires StartsWith(Lower(filename), "/users/" + other + "/")
    ensures AuthorizeReadFile(ctx, filename) == Failure(OffLimits(filename))
  {
    var q := Lower(filename);
    var theirs := "/users/" + other + "/";
    assert StartsWith(q, "/users/") by {
      assert q[..7] == theirs[..7];
    }
    if StartsWith(q, UserFolder(ctx)) {
      SameUserFolder(q, ctx.ticket.username, other);
    }
  }

  /** Two prefixes of one string agree where both are defined. */
  lemma SharedPrefix(q: string, x: string, y: string, k: nat)
    requires StartsWith(q, x) && StartsWith(q, y) && k < |x| && k < |y|
    ensures x[k] == y[k]
  {
    assert x[k] == q[k] && y[k] == q[k];
  }

  /** A path lies under the folders of two users (names without '/') only if they are the same user. */
  lemma SameUserFolder(q: string, me: string, other: string)
    requires '/' !in me && '/' !in other
    requires StartsWith(q, "/users/" + me + "/") && StartsWith(q, "/users/" + other + "/")
    ensures me == other
  {
    var mine := "/users/" + me + "/";
    var theirs := "/users/" + other + "/";
    if |me| < |other| {
      SharedPrefix(q, mine, theirs, 7 + |me|);
      assert false;
    } else if |me| > |other| {
      SharedPrefix(q, mine, theirs, 7 + |other|);
      assert false;
    } else {
      forall i | 0 <= i < |me|
        ensures me[i] == other[i]
      {
        assert mine[7 + i] == q[7 + i] == theirs[7 + i];
      }
    }
  }

  /** Files whose lower-cased name ends with ".config" are off limits to non-root callers. */
  lemma ConfigFilesOffLimits(ctx: Context, filename: string)
    requires !IsRoot(ctx) && SaneFileName(filename)
    requires EndsWith(Lower(filename), ".config")
    ensures AuthorizeReadFile(ctx, filename) == Failure(OffLimits(filename))
  {
    ConfigExtension(Lower(filename));
  }

  /** The authentication file and the database folder are off limits to non-root readers. */
  lemma AuthAndDbFilesOffLimits(ctx: Context, filename: string)
    requires !IsRoot(ctx) && SaneFileName(filename)
    requires Lower(filename) == Lower(ctx.authFile) || StartsWith(Lower(filename), DbPath(ctx))
    ensures AuthorizeReadFile(ctx, filename) == Failure(OffLimits(filename))
  {
  }

  /** Outside the shielded places a non-root read is decided by the access list, allowed by default. */
  lemma ReadOtherwiseByAccessList(ctx: Context, filename: string)
    requires !IsRoot(ctx) && SaneFileName(filename)
    requires var q := Lower(filename);
      && !OtherUsersPath(ctx, q) && !StartsWith(q, DbPath(ctx))
      && !EndsWith(q, ".config") && q != Lower(ctx.authFile)
    ensures AuthorizeReadFile(ctx, filename).Success? == AccessRights(ctx.access, ctx.ticket.role, "read", Lower(filename), true)
    ensures (forall e :: e in ctx.access ==> !Relevant(e, ctx.ticket.role, "read", Lower(filename))) ==>
      AuthorizeReadFile(ctx, filename).Success?
  {
    ConfigExtension(Lower(filename));
    if forall e :: e in ctx.access ==> !Relevant(e, ctx.ticket.role, "read", Lower(filename)) {
      DefaultWithoutRelevant(ctx.access, ctx.ticket.role, "read", Lower(filename), true);
    }
  }

  /** A non-root caller may always write under its own folder and under "/common/". */
  lemma OwnAndCommonWritable(ctx: Context, filename: string)
    requires SaneFileName(filename)
    requires StartsWith(Lower(filename), UserFolder(ctx)) || StartsWith(Lower(filename), "/common/")
    ensures AuthorizeModifyFile(ctx, filename) == Success(())
  {
  }

  /** Elsewhere a non-root write is decided by the access list, denied by default. */
  lemma WriteOtherwiseByAccessList(ctx: Context, filename: string)
    requires !IsRoot(ctx) && SaneFileName(filename)
    requires !StartsWith(Lower(filename), UserFolder(ctx)) && !StartsWith(Lower(filename), "/common/")
    ensures AuthorizeModifyFile(ctx, filename).Success? == AccessRights(ctx.access, ctx.ticket.role, "write", Lower(filename), false)
    ensures (forall e :: e in ctx.access ==> !Relevant(e, ctx.ticket.role, "write", Lower(filename))) ==>
      AuthorizeModifyFile(ctx, filename) == Failure(OffLimits(filename))
  {
    if forall e :: e in ctx.access ==> !Relevant(e, ctx.ticket.role, "write", Lower(filename)) {
      DefaultWithoutRelevant(ctx.access, ctx.ticket.role, "write", Lower(filename), false);
    }
  }

  /**
   * Another user's folder and the database folder are off limits to a
   * non-root caller, for reading and for modifying alike.
   */
  lemma FoldersOffLimits(ctx: Context, foldername: string)
    requires !IsRoot(ctx) && SaneFolderName(foldername)
    requires OtherUsersFolder(ctx, Lower(foldername)) || StartsWith(Lower(foldername), DbPath(ctx))
    ensures AuthorizeReadFolder(ctx, foldername) == Failure(OffLimits(foldername))
    ensures AuthorizeModifyFolder(ctx, foldername) == Failure(OffLimits(foldername))
  {
  }

  /**
   * Outside those folders a non-root caller's folder access is decided by the
   * access list under the "read" verb, allowed by default.
   */
  lemma ReadFolderOtherwiseByAccessList(ctx: Context, foldername: string)
    requires !IsRoot(ctx) && SaneFolderName(foldername)
    requires !OtherUsersFolder(ctx, Lower(foldername)) && !StartsWith(Lower(foldername), DbPath(ctx))
    ensures AuthorizeReadFolder(ctx, foldername).Success? ==
      AccessRights(ctx.access, ctx.ticket.role, "read", Lower(foldername), true)
    ensures AuthorizeModifyFolder(ctx, foldername) == AuthorizeReadFolder(ctx, foldername)
    ensures (forall e :: e in ctx.access ==> !Relevant(e, ctx.ticket.role, "read", Lower(foldername))) ==>
      AuthorizeReadFolder(ctx, foldername).Success?
  {
    if forall e :: e in ctx.access ==> !Relevant(e, ctx.ticket.role, "read", Lower(foldername)) {
      DefaultWithoutRelevant(ctx.access, ctx.ticket.role, "read", Lower(foldername), true);
    }
  }

  /** Modifying a folder is allowed exactly when reading it is. */
  lemma ModifyFolderIsReadFolder(ctx: Context, foldername: string)
    ensures AuthorizeModifyFolder(ctx, foldername) == AuthorizeReadFolder(ctx, foldername)
  {
  }

  /**
   * The folder rule lets "/users/" itself past the user-folder shield, which
   * the file rule does not: only the database path and the access list can
   * stop a non-root caller there.
   */
  lemma UsersFolderNotShielded(ctx: Context)
    requires !IsRoot(ctx)
    ensures AuthorizeReadFolder(ctx, "/users/").Success? ==
      (!StartsWith("/users/", DbPath(ctx)) && AccessRights(ctx.access, ctx.ticket.role, "read", "/users/", true))
    ensures AuthorizeModifyFolder(ctx, "/users/") == AuthorizeReadFolder(ctx, "/users/")
  {
    UsersRootFacts();
  }

  lemma UsersRootFacts()
    ensures SaneFolderName("/users/") && Lower("/users/") == "/users/"
  {
    var p := "/users/";
    assert SaneFileChars(p);
    forall i | 0 <= i < |p|
      ensures Lower(p)[i] == p[i]
    {
      assert LowerChar(p[i]) == p[i];
    }
  }

  /**
   * The own-folder test compares the lower-cased path with the username as
   * given, so a non-root user whose name has an upper-case letter is refused
   * reads in their own folder.
   */
  lemma CapitalisedUsernameLockedOut(ctx: Context, rest: string)
    requires !IsRoot(ctx) && ctx.ticket.username == "Bob"
    requires SaneFileName("/users/Bob/" + rest)
    ensures AuthorizeReadFile(ctx, "/users/Bob/" + rest) == Failure(OffLimits("/users/Bob/" + rest))
  {
    var p := "/users/Bob/" + rest;
    var q := Lower(p);
    assert forall i :: 0 <= i < 11 ==> p[i] == "/users/Bob/"[i];
    forall i | 0 <= i < 7
      ensures q[i] == "/users/"[i]
    {
      assert q[i] == LowerChar(p[i]);
    }
    assert q[7] == LowerChar(p[7]) == 'b';
    assert q[..7] == "/users/";
    assert UserFolder(ctx)[7] == 'B';
  }

  /** UserHasWriteAccessToFolder grants the folder named after the caller's role. */
  lemma WriteFolderUsesRole(ctx: Context, path: string)
    requires StartsWith(path, "/users/" + ctx.ticket.role + "/")
    ensures UserHasWriteAccessToFolder(ctx, path)
  {
    assert ("/users/" + ctx.ticket.role + "/")[..7] == "/users/";
    assert path[..7] == "/users/";
  }
}
