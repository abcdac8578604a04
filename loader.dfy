/**
  Discovery of migration files (migrate/loader.go). A directory listing is
  reduced to one `Migration` per version, and the result is ordered by version.
 */
module Loader {
  import opened Wrappers
  import opened Ordering
  import opened Text

  /** One migration: its version, its name, and its two scripts ("" when a half is absent). */
  datatype Migration = Migration(version: int, name: string, upSQL: string, downSQL: string)

  /** One directory entry: its file name, whether reading it succeeds, and what reading it returns. */
  datatype DirEntry = DirEntry(name: string, readable: bool, content: string)

  /** Reading the directory either fails or lists its entries (in file-name order). */
  datatype Directory = Unreadable | Listing(entries: seq<DirEntry>)

  datatype LoadError = ReadDirFailed

  /** Which script a file supplies. */
  datatype Half = Up | Down

  // ---------------------------------------------------------------------------
  // File names

  /** Only names ending in `.sql` are migration files. */
  predicate IsScript(fileName: string) {
    HasSuffix(fileName, ".sql")
  }

  /** The version: `Atoi` of the first `_`-separated piece of the file name. */
  function VersionOf(fileName: string): int {
    Atoi(Split(fileName, '_')[0])
  }

  /**
    The name: the remaining pieces joined back with `_`, without a trailing
    `.up.sql` and then without a trailing `.down.sql`; "" when there is no `_`.
   */
  function NameOf(fileName: string): string {
    var nameParts := Split(fileName, '_')[1..];
    if |nameParts| > 0 then TrimSuffix(TrimSuffix(Join(nameParts, '_'), ".up.sql"), ".down.sql")
    else ""
  }

  /** The script a file supplies: `.up.` wins over `.down.`; a file with neither supplies none. */
  function HalfOf(fileName: string): Option<Half> {
    if Contains(fileName, ".up.") then Some(Up)
    else if Contains(fileName, ".down.") then Some(Down)
    else None
  }

  /** An entry that reaches the map: a `.sql` file that could be read. */
  predicate Considered(e: DirEntry) {
    IsScript(e.name) && e.readable
  }

  lemma VersionIsLeadingToken(fileName: string)
    ensures VersionOf(fileName) == Atoi(match IndexOf(fileName, '_')
                                        case None => fileName
                                        case Some(i) => fileName[..i])
  {
    SplitAtFirst(fileName, '_');
  }

  lemma NameIsTextAfterFirstUnderscore(fileName: string)
    ensures NameOf(fileName) == match IndexOf(fileName, '_')
                                case None => ""
                                case Some(i) => TrimSuffix(TrimSuffix(fileName[i + 1..], ".up.sql"), ".down.sql")
  {
    SplitAtFirst(fileName, '_');
  }

  // ---------------------------------------------------------------------------
  // The map the loader's first loop builds, as a function of the entries seen

  predicate WellKeyed(m: map<int, Migration>) {
    forall v :: v in m ==> m[v].version == v
  }

  function Script(m: Migration, h: Half): string {
    match h
    case Up => m.upSQL
    case Down => m.downSQL
  }

  /** What one entry does to the map (loader.go:21-51). */
  function Absorb(m: map<int, Migration>, e: DirEntry): map<int, Migration> {
    if !Considered(e) then m
    else
      var v := VersionOf(e.name);
      var entry := if v in m then m[v] else Migration(v, NameOf(e.name), "", "");
      m[v := match HalfOf(e.name)
             case Some(Up) => entry.(upSQL := e.content)
             case Some(Down) => entry.(downSQL := e.content)
             case None => entry]
  }

  /** Absorbing an entry adds at most its version and leaves every other version alone. */
  lemma AbsorbFrame(m: map<int, Migration>, e: DirEntry, w: int)
    ensures Absorb(m, e).Keys == if Considered(e) then m.Keys + {VersionOf(e.name)} else m.Keys
    ensures w in m && (!Considered(e) || w != VersionOf(e.name)) ==> Absorb(m, e)[w] == m[w]
    ensures w in m ==> Absorb(m, e)[w].name == m[w].name
    ensures w !in m && Considered(e) && w == VersionOf(e.name) ==> Absorb(m, e)[w].name == NameOf(e.name)
  {
  }

  /** The map after the entries have been seen one after the other. */
  function Scan(entries: seq<DirEntry>): (m: map<int, Migration>)
    ensures WellKeyed(m)
  {
    if entries == [] then map[]
    else Absorb(Scan(entries[..|entries| - 1]), entries[|entries| - 1])
  }

  lemma ScanSnoc(entries: seq<DirEntry>, e: DirEntry)
    ensures Scan(entries + [e]) == Absorb(Scan(entries), e)
  {
    assert (entries + [e])[..|entries|] == entries;
  }

  /** The versions in the map are exactly those of the `.sql` files that could be read. */
  lemma {:induction false} ScanKeys(entries: seq<DirEntry>)
    ensures Scan(entries).Keys ==
            set i | 0 <= i < |entries| && Considered(entries[i]) :: VersionOf(entries[i].name)
  {
    if entries != [] {
      var front := entries[..|entries| - 1];
      ScanKeys(front);
      ScanSnoc(front, entries[|entries| - 1]);
      assert entries == front + [entries[|entries| - 1]];
      var all := set i | 0 <= i < |entries| && Considered(entries[i]) :: VersionOf(entries[i].name);
      var before := set i | 0 <= i < |front| && Considered(front[i]) :: VersionOf(front[i].name);
      assert before <= all by {
        forall v | v in before ensures v in all {
          var i :| 0 <= i < |front| && Considered(front[i]) && VersionOf(front[i].name) == v;
          assert entries[i] == front[i];
        }
      }
      assert all <= before + Scan(entries).Keys - Scan(front).Keys + before by {
        forall v | v in all ensures v in before || v in Scan(entries).Keys {
          var i :| 0 <= i < |entries| && Considered(entries[i]) && VersionOf(entries[i].name) == v;
          if i < |front| { assert front[i] == entries[i]; }
        }
      }
    }
  }

  /** Entries that are not `.sql` files, or cannot be read, are ignored wherever they appear. */
  lemma {:induction false} ScanIgnores(before: seq<DirEntry>, e: DirEntry, after: seq<DirEntry>)
    requires !Considered(e)
    ensures Scan(before + [e] + after) == Scan(before + after)
    decreases |after|
  {
    if after == [] {
      assert before + [e] + after == before + [e];
      assert before + after == before;
      ScanSnoc(before, e);
    } else {
      var last := after[|after| - 1];
      var init := after[..|after| - 1];
      ScanIgnores(before, e, init);
      assert before + [e] + after == (before + [e] + init) + [last];
      assert before + after == (before + init) + [last];
      ScanSnoc(before + [e] + init, last);
      ScanSnoc(before + init, last);
    }
  }

  /**
    The name of a version comes from the first readable `.sql` file with that
    version, whatever files with that version come after it.
   */
  lemma {:induction false} ScanNameFromFirst(entries: seq<DirEntry>, i: nat)
    requires i < |entries| && Considered(entries[i])
    requires forall j :: 0 <= j < i && Considered(entries[j]) ==>
               VersionOf(entries[j].name) != VersionOf(entries[i].name)
    ensures VersionOf(entries[i].name) in Scan(entries)
    ensures Scan(entries)[VersionOf(entries[i].name)].name == NameOf(entries[i].name)
    decreases |entries|
  {
    var v := VersionOf(entries[i].name);
    var front := entries[..|entries| - 1];
    var e := entries[|entries| - 1];
    assert entries == front + [e];
    ScanSnoc(front, e);
    AbsorbFrame(Scan(front), e, v);
    if i < |entries| - 1 {
      ScanNameFromFirst(front, i);
    } else {
      ScanKeys(front);
      assert v !in Scan(front) by {
        forall j | 0 <= j < |front| && Considered(front[j]) ensures VersionOf(front[j].name) != v {
          assert front[j] == entries[j];
        }
      }
    }
  }

  /** `e` supplies half `h` of version `v`. */
  predicate Supplies(e: DirEntry, v: int, h: Half) {
    Considered(e) && VersionOf(e.name) == v && HalfOf(e.name) == Some(h)
  }

  /** A script is the content of the last readable file that supplies it, stored verbatim. */
  lemma {:induction false} ScanScriptFromLast(entries: seq<DirEntry>, v: int, h: Half, i: nat)
    requires i < |entries| && Supplies(entries[i], v, h)
    requires forall j :: i < j < |entries| ==> !Supplies(entries[j], v, h)
    ensures v in Scan(entries) && Script(Scan(entries)[v], h) == entries[i].content
    decreases |entries|
  {
    var front := entries[..|entries| - 1];
    assert entries == front + [entries[|entries| - 1]];
    ScanSnoc(front, entries[|entries| - 1]);
    if i < |entries| - 1 {
      ScanScriptFromLast(front, v, h, i);
    }
  }

  /** A half that no readable file supplies stays "" (the migration may still exist). */
  lemma {:induction false} ScanScriptAbsent(entries: seq<DirEntry>, v: int, h: Half)
    requires forall j :: 0 <= j < |entries| ==> !Supplies(entries[j], v, h)
    ensures v in Scan(entries) ==> Script(Scan(entries)[v], h) == ""
    decreases |entries|
  {
    if entries != [] {
      var front := entries[..|entries| - 1];
      assert entries == front + [entries[|entries| - 1]];
      ScanSnoc(front, entries[|entries| - 1]);
      ScanScriptAbsent(front, v, h);
    }
  }

  // ---------------------------------------------------------------------------
  // The loader's result: the map's entries in ascending version order

  predicate AscendingByVersion(ms: seq<Migration>) {
    forall i, j :: 0 <= i < j < |ms| ==> ms[i].version < ms[j].version
  }

  function VersionSet(ms: seq<Migration>): set<int> {
    set i | 0 <= i < |ms| :: ms[i].version
  }

  function VersionSeq(ms: seq<Migration>): (vs: seq<int>)
    ensures |vs| == |ms| && forall i :: 0 <= i < |ms| ==> vs[i] == ms[i].version
  {
    seq(|ms|, i requires 0 <= i < |ms| => ms[i].version)
  }

  /** The entries of a map in ascending version order: the entry of the least version, then the others. */
  function Arrange(m: map<int, Migration>): seq<Migration>
    decreases |m.Keys|
  {
    if m.Keys == {} then []
    else
      var v := Least(m.Keys);
      assert (m - {v}).Keys == m.Keys - {v};
      [m[v]] + Arrange(m - {v})
  }

  /** The arrangement of a well-keyed map holds each of its entries once, ascending by version. */
  lemma {:induction false} ArrangeFacts(m: map<int, Migration>)
    requires WellKeyed(m)
    ensures AscendingByVersion(Arrange(m))
    ensures VersionSet(Arrange(m)) == m.Keys
    ensures forall i :: 0 <= i < |Arrange(m)| ==> Arrange(m)[i].version in m && Arrange(m)[i] == m[Arrange(m)[i].version]
    decreases |m.Keys|
  {
    var r := Arrange(m);
    if m.Keys != {} {
      var v := Least(m.Keys);
      var rest := m - {v};
      assert rest.Keys == m.Keys - {v};
      ArrangeFacts(rest);
      var t := Arrange(rest);
      assert r == [m[v]] + t;
      ArrangeCons(m, v, t);
    }
  }

  /** Putting the entry of the least version in front of an arrangement of the others. */
  lemma ArrangeCons(m: map<int, Migration>, v: int, t: seq<Migration>)
    requires WellKeyed(m) && IsLeast(v, m.Keys)
    requires AscendingByVersion(t) && VersionSet(t) == m.Keys - {v}
    requires forall i :: 0 <= i < |t| ==> t[i].version in m && t[i] == m[t[i].version]
    ensures AscendingByVersion([m[v]] + t)
    ensures VersionSet([m[v]] + t) == m.Keys
    ensures forall i :: 0 <= i < |[m[v]] + t| ==> ([m[v]] + t)[i].version in m && ([m[v]] + t)[i] == m[([m[v]] + t)[i].version]
  {
    var r := [m[v]] + t;
    forall i | 0 <= i < |t| ensures t[i].version in m.Keys - {v} {
      assert t[i].version in VersionSet(t);
    }
    forall i, j | 0 <= i < j < |r| ensures r[i].version < r[j].version {
      assert r[j] == t[j - 1];
      if i > 0 { assert r[i] == t[i - 1]; }
    }
    forall w | w in m.Keys ensures w in VersionSet(r) {
      if w == v {
        assert r[0].version == v;
      } else {
        assert w in VersionSet(t);
        var i :| 0 <= i < |t| && t[i].version == w;
        assert r[i + 1] == t[i];
      }
    }
    forall i | 0 <= i < |r| ensures r[i].version in m && r[i] == m[r[i].version] {
      if i > 0 { assert r[i] == t[i - 1]; }
    }
  }

  /** What loading a readable directory gives. */
  function Catalog(entries: seq<DirEntry>): seq<Migration> {
    Arrange(Scan(entries))
  }

  /** What `Load` returns for a directory. */
  function Loaded(dir: Directory): Result<seq<Migration>, LoadError> {
    match dir
    case Unreadable => Failure(ReadDirFailed)
    case Listing(entries) => Success(Catalog(entries))
  }

  /** An empty directory yields no migrations. */
  lemma EmptyCatalog()
    ensures Catalog([]) == []
  {
    assert Scan([]) == map[];
  }

  // ---------------------------------------------------------------------------
  // Load (loader.go:12-64)

  /** Go's `sort.Slice` by ascending version, in place (loader.go:59-61). */
  method SortByVersion(a: array<Migration>)
    modifies a
    ensures forall i, j :: 0 <= i < j < a.Length ==> a[i].version <= a[j].version
    ensures multiset(a[..]) == old(multiset(a[..]))
  {
    var i := 0;
    while i < a.Length
      invariant 0 <= i <= a.Length
      invariant forall k, l :: 0 <= k < l < i ==> a[k].version <= a[l].version
      invariant multiset(a[..]) == old(multiset(a[..]))
    {
      var j := i;
      while j > 0 && a[j - 1].version > a[j].version
        invariant 0 <= j <= i
        invariant forall k, l :: 0 <= k < l <= i && k != j && l != j ==> a[k].version <= a[l].version
        invariant forall l :: j < l <= i ==> a[j].version < a[l].version
        invariant multiset(a[..]) == old(multiset(a[..]))
      {
        Swap(a, j - 1, j);
        j := j - 1;
      }
      i := i + 1;
    }
  }

  method Swap(a: array<Migration>, i: int, j: int)
    requires 0 <= i < a.Length && 0 <= j < a.Length
    modifies a
    ensures a[i] == old(a[j]) && a[j] == old(a[i])
    ensures forall k :: 0 <= k < a.Length && k != i && k != j ==> a[k] == old(a[k])
    ensures multiset(a[..]) == old(multiset(a[..]))
  {
    a[i], a[j] := a[j], a[i];
  }

  /**
    Reads the directory: an unreadable directory is an error; otherwise every
    entry is merged into a map keyed by version, the map's entries are
    collected, and the collection is sorted by version.
   */
  method Load(dir: Directory) returns (r: Result<seq<Migration>, LoadError>)
    ensures r == Loaded(dir)
  {
    if dir.Unreadable? {
      return Failure(ReadDirFailed);
    }
    var m := ScanEntries(dir.entries);
    var out := CollectEntries(m);
    var a := new Migration[|out|](j requires 0 <= j < |out| => out[j]);
    assert a[..] == out;
    SortByVersion(a);
    SortedIsArranged(m, out, a[..]);
    r := Success(a[..]);
  }

  /** The loop over the directory's entries (loader.go:18-52): it builds `Scan(files)`. */
  method ScanEntries(files: seq<DirEntry>) returns (m: map<int, Migration>)
    ensures m == Scan(files)
  {
    m := map[];
    var i := 0;
    while i < |files|
      invariant 0 <= i <= |files|
      invariant m == Scan(files[..i])
    {
      var f := files[i];
      assert files[..i + 1] == files[..i] + [f];
      ScanSnoc(files[..i], f);
      var name := f.name;
      if !HasSuffix(name, ".sql") {
        i := i + 1;
        continue;
      }
      var parts := Split(name, '_');
      var version := Atoi(parts[0]);
      if !f.readable {
        i := i + 1;
        continue;
      }
      var sql := f.content;
      var entry: Migration;
      if version in m {
        entry := m[version];
      } else {
        var nameParts := parts[1..];
        var migrationName := "";
        if |nameParts| > 0 {
          migrationName := TrimSuffix(Join(nameParts, '_'), ".up.sql");
          migrationName := TrimSuffix(migrationName, ".down.sql");
        }
        entry := Migration(version, migrationName, "", "");
      }
      if Contains(name, ".up.") {
        entry := entry.(upSQL := sql);
      } else if Contains(name, ".down.") {
        entry := entry.(downSQL := sql);
      }
      // Go updates the entry through the pointer held in the map; here the map
      // holds values, so the updated entry is stored back.
      m := m[version := entry];
      i := i + 1;
    }
    assert files[..|files|] == files;
  }

  /**
    Collects the map's entries in whatever order the map yields them
    (loader.go:54-57): each entry once, and nothing else.
   */
  method CollectEntries(m: map<int, Migration>) returns (out: seq<Migration>)
    requires WellKeyed(m)
    ensures forall j :: 0 <= j < |out| ==> out[j].version in m && out[j] == m[out[j].version]
    ensures forall j, k :: 0 <= j < k < |out| ==> out[j].version != out[k].version
    ensures VersionSet(out) == m.Keys
  {
    out := [];
    var rest := m.Keys;
    while rest != {}
      invariant rest <= m.Keys
      invariant forall j :: 0 <= j < |out| ==> out[j].version in m && out[j] == m[out[j].version]
      invariant forall j, k :: 0 <= j < k < |out| ==> out[j].version != out[k].version
      invariant VersionSet(out) == m.Keys - rest
      decreases rest
    {
      NonEmptyHasElement(rest);
      var v :| v in rest;
      CollectOne(m, out, v);
      out := out + [m[v]];
      rest := rest - {v};
    }
  }

  // ---------------------------------------------------------------------------
  // Why sorting the collected entries gives `Arrange(m)`

  /** Appending the entry of a version not yet collected keeps the collection's versions distinct. */
  lemma CollectOne(m: map<int, Migration>, out: seq<Migration>, v: int)
    requires WellKeyed(m) && v in m && v !in VersionSet(out)
    ensures forall j :: 0 <= j < |out| ==> (out + [m[v]])[j].version != v
    ensures VersionSet(out + [m[v]]) == VersionSet(out) + {v}
  {
    forall j | 0 <= j < |out| ensures out[j].version != v {
      assert out[j].version in VersionSet(out);
    }
    var o := out + [m[v]];
    forall w | w in VersionSet(o) ensures w in VersionSet(out) + {v} {
      var j :| 0 <= j < |o| && o[j].version == w;
      if j < |out| { assert out[j] == o[j]; }
    }
    forall w | w in VersionSet(out) ensures w in VersionSet(o) {
      var j :| 0 <= j < |out| && out[j].version == w;
      assert o[j] == out[j];
    }
    assert o[|out|].version == v;
  }

  predicate Distinct(s: seq<Migration>) {
    forall i, j :: 0 <= i < j < |s| ==> s[i] != s[j]
  }

  lemma {:induction false} CountAtMostOne(t: seq<Migration>, x: Migration)
    requires Distinct(t)
    ensures multiset(t)[x] <= 1
  {
    if t != [] {
      assert t == [t[0]] + t[1..];
      CountAtMostOne(t[1..], x);
      if t[0] == x {
        assert x !in t[1..] by {
          forall j | 1 <= j < |t| ensures t[j] != t[0] { }
        }
      }
    }
  }

  lemma CountTwo(s: seq<Migration>, i: nat, j: nat)
    requires i < j < |s|
    ensures s[i] == s[j] ==> multiset(s)[s[i]] >= 2
  {
    assert s == s[..j] + s[j..];
    assert s[i] in s[..j];
    assert s[j] in s[j..];
  }

  lemma DistinctPermutation(s: seq<Migration>, t: seq<Migration>)
    requires multiset(s) == multiset(t) && Distinct(t)
    ensures Distinct(s)
  {
    forall i, j | 0 <= i < j < |s| ensures s[i] != s[j] {
      CountTwo(s, i, j);
      CountAtMostOne(t, s[i]);
    }
  }

  /** A sequence of a map's entries, ascending by version and covering all versions, is `Arrange` of it. */
  lemma {:induction false} AscendingIsArranged(m: map<int, Migration>, s: seq<Migration>)
    requires WellKeyed(m)
    requires forall j :: 0 <= j < |s| ==> s[j].version in m && s[j] == m[s[j].version]
    requires AscendingByVersion(s) && VersionSet(s) == m.Keys
    ensures s == Arrange(m)
    decreases |s|
  {
    if s == [] {
      assert m.Keys == {};
    } else {
      var v := s[0].version;
      DropFirst(m, s);
      assert Least(m.Keys) == v;
      AscendingIsArranged(m - {v}, s[1..]);
      assert s == [m[v]] + s[1..];
    }
  }

  /** The first of such a sequence is the entry of the least version; the others arrange the rest of the map. */
  lemma DropFirst(m: map<int, Migration>, s: seq<Migration>)
    requires WellKeyed(m) && s != []
    requires forall j :: 0 <= j < |s| ==> s[j].version in m && s[j] == m[s[j].version]
    requires AscendingByVersion(s) && VersionSet(s) == m.Keys
    ensures IsLeast(s[0].version, m.Keys)
    ensures var rest := m - {s[0].version};
            && WellKeyed(rest) && AscendingByVersion(s[1..]) && VersionSet(s[1..]) == rest.Keys
            && forall j :: 0 <= j < |s| - 1 ==> s[1..][j].version in rest && s[1..][j] == rest[s[1..][j].version]
  {
    var v := s[0].version;
    forall w | w in m.Keys ensures v <= w {
      var j :| 0 <= j < |s| && s[j].version == w;
    }
    var rest := m - {v};
    var t := s[1..];
    assert rest.Keys == m.Keys - {v};
    forall j | 0 <= j < |t| ensures t[j].version in rest && t[j] == rest[t[j].version] {
      assert t[j] == s[j + 1] && s[0].version < s[j + 1].version;
    }
    forall w | w in rest.Keys ensures w in VersionSet(t) {
      var j :| 0 <= j < |s| && s[j].version == w;
      assert t[j - 1] == s[j];
    }
    forall w | w in VersionSet(t) ensures w in rest.Keys {
      var j :| 0 <= j < |t| && t[j].version == w;
    }
  }

  /** A permutation of `out` has the same members. */
  lemma SameMembers(s: seq<Migration>, out: seq<Migration>)
    requires multiset(s) == multiset(out)
    ensures forall x :: x in s <==> x in out
  {
    forall x ensures x in s <==> x in out {
      assert x in s <==> x in multiset(s);
      assert x in out <==> x in multiset(out);
    }
  }

  lemma SortedIsArranged(m: map<int, Migration>, out: seq<Migration>, s: seq<Migration>)
    requires WellKeyed(m)
    requires forall j :: 0 <= j < |out| ==> out[j].version in m && out[j] == m[out[j].version]
    requires forall j, k :: 0 <= j < k < |out| ==> out[j].version != out[k].version
    requires VersionSet(out) == m.Keys
    requires multiset(s) == multiset(out)
    requires forall i, j :: 0 <= i < j < |s| ==> s[i].version <= s[j].version
    ensures s == Arrange(m)
  {
    SameMembers(s, out);
    assert Distinct(out);
    DistinctPermutation(s, out);
    forall j | 0 <= j < |s| ensures s[j].version in m && s[j] == m[s[j].version] {
      assert s[j] in out;
    }
    assert AscendingByVersion(s) by {
      forall i, j | 0 <= i < j < |s| ensures s[i].version < s[j].version {
        assert s[i] != s[j];
      }
    }
    assert VersionSet(s) == m.Keys by {
      forall v | v in m.Keys ensures v in VersionSet(s) {
        var k :| 0 <= k < |out| && out[k].version == v;
        assert out[k] in s;
        var j :| 0 <= j < |s| && s[j] == out[k];
      }
    }
    AscendingIsArranged(m, s);
  }
}
