/**
  Creating a new migration (migrate/creator.go): a pair of files
  `<version>_<name>.up.sql` and `<version>_<name>.down.sql` holding the
  starting templates. The directory, the clock and the file writes are
  inputs: whether creating the directory and each write succeed, and the
  version (the current Unix time in seconds).
 */
module Creator {
  import opened Wrappers
  import opened Text
  import opened Loader

  const UpTemplate: string := "-- UP\n"
  const DownTemplate: string := "-- DOWN\n"

  datatype CreateError = MkdirFailed | EmptyName | UpWriteFailed | DownWriteFailed

  /** Whether the directory exists afterwards, the error if any, and the files written, in the order they were written. */
  datatype Creation = Creation(dirExists: bool, err: Option<CreateError>, written: seq<DirEntry>)

  function UpFileName(version: int, name: string): string {
    Itoa(version) + "_" + name + ".up.sql"
  }

  function DownFileName(version: int, name: string): string {
    Itoa(version) + "_" + name + ".down.sql"
  }

  /** The up file as it then appears in a listing of the directory. */
  function UpFile(version: int, name: string): DirEntry {
    DirEntry(UpFileName(version, name), true, UpTemplate)
  }

  function DownFile(version: int, name: string): DirEntry {
    DirEntry(DownFileName(version, name), true, DownTemplate)
  }

  /**
    `NewMigration`: create the directory, refuse an empty name, then write the
    up file and the down file; the first step that fails ends the call.
   */
  function NewMigration(mkdirOk: bool, name: string, version: int, upWriteOk: bool, downWriteOk: bool): (c: Creation)
    ensures c.err.None? <==> mkdirOk && name != "" && upWriteOk && downWriteOk
    ensures c.dirExists == mkdirOk
    ensures name == "" ==> c.written == [] && c.err == Some(if mkdirOk then EmptyName else MkdirFailed)
    ensures c.err.None? ==> c.written == [UpFile(version, name), DownFile(version, name)]
    ensures c.err.Some? ==> |c.written| <= 1 && (c.written != [] <==> c.err == Some(DownWriteFailed))
    ensures forall e :: e in c.written ==> e in [UpFile(version, name), DownFile(version, name)]
  {
    if !mkdirOk then Creation(false, Some(MkdirFailed), [])
    else if name == "" then Creation(true, Some(EmptyName), [])
    else if !upWriteOk then Creation(true, Some(UpWriteFailed), [])
    else if !downWriteOk then Creation(true, Some(DownWriteFailed), [UpFile(version, name)])
    else Creation(true, None, [UpFile(version, name), DownFile(version, name)])
  }

  /** The two file names differ only in their last part and share the version and the name. */
  lemma FileNamesShareStem(version: int, name: string)
    ensures var stem := Itoa(version) + "_" + name;
            UpFileName(version, name) == stem + ".up.sql" && DownFileName(version, name) == stem + ".down.sql"
    ensures UpFileName(version, name) != DownFileName(version, name)
  {
    var stem := Itoa(version) + "_" + name;
    assert UpFileName(version, name)[|stem| + 1] == 'u';
    assert DownFileName(version, name)[|stem| + 1] == 'd';
  }

  // ---------------------------------------------------------------------------
  // What the loader makes of the created files

  /**
    A name the loader reads back unchanged: not empty, without `/` (which
    `filepath.Join` would turn into a subdirectory the loader does not list),
    not itself ending in `.down.sql` (which the loader would trim), and not
    producing `.up.` in the down file's name (which would make the loader take
    it for an up file).
   */
  predicate LoadableName(name: string) {
    name != "" && '/' !in name && !HasSuffix(name, ".down.sql") && !Contains(name + ".down.sql", ".up.")
  }

  /** Every non-empty name without `.` or `/` is loadable: spaces, `-` and `_` are all kept. */
  lemma NameWithoutDotIsLoadable(name: string)
    requires name != "" && '.' !in name && '/' !in name
    ensures LoadableName(name)
  {
    if HasSuffix(name, ".down.sql") {
      assert name[|name| - 9] == ".down.sql"[0];
    }
    ContainsSkip(name, ".down.sql", ".up.");
    DownSuffixLacksUp();
  }

  lemma DownSuffixLacksUp()
    ensures !Contains(".down.sql", ".up.")
  {
    assert !HasPrefix(".down.sql", ".up.") by { assert ".down.sql"[1] != ".up."[1]; }
    assert ".down.sql"[1..] == "down" + ".sql";
    ContainsSkip("down", ".sql", ".up.");
    assert !HasPrefix(".sql", ".up.") by { assert ".sql"[1] != ".up."[1]; }
    assert ".sql"[1..] == "sql" + "";
    ContainsSkip("sql", "", ".up.");
  }

  /** The first `c` in `a + [c] + b`, when `a` has none, is right after `a`. */
  lemma {:induction false} IndexAfter(a: string, c: char, b: string)
    requires c !in a
    ensures IndexOf(a + [c] + b, c) == Some(|a|)
  {
    var s := a + [c] + b;
    if a == [] {
      assert s[0] == c;
    } else {
      assert s[0] == a[0];
      assert s[1..] == a[1..] + [c] + b;
      IndexAfter(a[1..], c, b);
    }
  }

  /** Dropping a suffix that was just appended gives the text back. */
  lemma TrimAppended(s: string, suffix: string)
    ensures TrimSuffix(s + suffix, suffix) == s
  {
    assert HasSuffix(s + suffix, suffix) by { assert (s + suffix)[|s|..] == suffix; }
  }

  /** How the loader parses a file named `Itoa(version) + "_" + name + tail`. */
  lemma ParseCreated(version: int, name: string, tail: string)
    requires MinInt64 <= version <= MaxInt64
    ensures var f := Itoa(version) + "_" + name + tail;
            VersionOf(f) == version &&
            NameOf(f) == TrimSuffix(TrimSuffix(name + tail, ".up.sql"), ".down.sql")
  {
    var d := Itoa(version);
    var f := d + "_" + name + tail;
    ItoaCharacters(version, '_');
    assert f == d + ['_'] + (name + tail);
    IndexAfter(d, '_', name + tail);
    VersionIsLeadingToken(f);
    assert f[..|d|] == d;
    AtoiItoa(version);
    NameIsTextAfterFirstUnderscore(f);
    assert f[|d| + 1..] == name + tail;
  }

  /** A file name whose tail starts with `marker` contains `marker`. */
  lemma TailMarks(stem: string, tail: string, marker: string, rest: string)
    requires tail == marker + rest
    ensures Contains(stem + tail, marker)
  {
    assert stem + tail == stem + marker + rest;
    ContainsInfix(stem, marker, rest);
  }

  /** A file name whose tail ends with `suffix` ends with `suffix`. */
  lemma TailEnds(stem: string, tail: string, front: string, suffix: string)
    requires tail == front + suffix
    ensures HasSuffix(stem + tail, suffix)
  {
    assert (stem + tail)[|stem + tail| - |suffix|..] == suffix;
  }

  /** How the two file-name tails split into the loader's markers. */
  lemma ScriptSuffixes()
    ensures ".up.sql" == ".up." + "sql" && ".up.sql" == ".up" + ".sql"
    ensures ".down.sql" == ".down." + "sql" && ".down.sql" == ".down" + ".sql"
  {
  }

  /** The loader reads the up file as the up script of `version`, named `name`. */
  lemma UpFileParses(version: int, name: string)
    requires MinInt64 <= version <= MaxInt64 && LoadableName(name)
    ensures var e := UpFile(version, name);
            Considered(e) && VersionOf(e.name) == version && NameOf(e.name) == name && HalfOf(e.name) == Some(Up)
  {
    ParseCreated(version, name, ".up.sql");
    TrimAppended(name, ".up.sql");
    UpFileMarked(Itoa(version) + "_" + name);
  }

  /** A file name ending in `.up.sql` is a script that supplies an up half. */
  lemma UpFileMarked(stem: string)
    ensures HasSuffix(stem + ".up.sql", ".sql") && HalfOf(stem + ".up.sql") == Some(Up)
  {
    ScriptSuffixes();
    TailMarks(stem, ".up.sql", ".up.", "sql");
    TailEnds(stem, ".up.sql", ".up", ".sql");
  }

  /** The loader reads the down file as the down script of `version`, named `name`. */
  lemma DownFileParses(version: int, name: string)
    requires MinInt64 <= version <= MaxInt64 && LoadableName(name)
    ensures var e := DownFile(version, name);
            Considered(e) && VersionOf(e.name) == version && NameOf(e.name) == name && HalfOf(e.name) == Some(Down)
  {
    ParseCreated(version, name, ".down.sql");
    DownNameKept(name);
    ItoaCharacters(version, '.');
    DownFileMarked(Itoa(version) + "_", name);
  }

  /**
    After a prefix without `.`, a loadable name followed by `.down.sql` is a
    script that supplies a down half.
   */
  lemma DownFileMarked(prefix: string, name: string)
    requires '.' !in prefix && LoadableName(name)
    ensures HasSuffix(prefix + name + ".down.sql", ".sql") && HalfOf(prefix + name + ".down.sql") == Some(Down)
  {
    assert prefix + name + ".down.sql" == prefix + (name + ".down.sql");
    ContainsSkip(prefix, name + ".down.sql", ".up.");
    ScriptSuffixes();
    TailMarks(prefix + name, ".down.sql", ".down.", "sql");
    TailEnds(prefix + name, ".down.sql", ".down", ".sql");
  }

  /** The loader's two trims give a loadable name back from the down file's name. */
  lemma DownNameKept(name: string)
    requires LoadableName(name)
    ensures TrimSuffix(TrimSuffix(name + ".down.sql", ".up.sql"), ".down.sql") == name
  {
    assert !HasSuffix(name + ".down.sql", ".up.sql") by {
      var s := name + ".down.sql";
      assert s[|s| - 7] == 'o';
    }
    TrimAppended(name, ".down.sql");
  }

  /** Arranging a map of one version gives its one entry. */
  lemma ArrangeSingle(v: int, m: Migration)
    ensures Arrange(map[v := m]) == [m]
  {
    var mm := map[v := m];
    assert mm.Keys == {v};
    assert (mm - {v}).Keys == {};
  }

  /** The map an up file and a down file of one version and name give, absorbed in either order. */
  function Merged(up: DirEntry, down: DirEntry): map<int, Migration> {
    map[VersionOf(up.name) := Migration(VersionOf(up.name), NameOf(up.name), up.content, down.content)]
  }

  predicate Halves(up: DirEntry, down: DirEntry) {
    Considered(up) && HalfOf(up.name) == Some(Up) && Considered(down) && HalfOf(down.name) == Some(Down) &&
    VersionOf(down.name) == VersionOf(up.name) && NameOf(down.name) == NameOf(up.name)
  }

  /** The up file first: it creates the entry, and the down file fills in the other half. */
  lemma AbsorbUpThenDown(up: DirEntry, down: DirEntry)
    requires Halves(up, down)
    ensures Absorb(Absorb(map[], up), down) == Merged(up, down)
  {
  }

  /** The down file first: the entry's name comes from it, which is the same name. */
  lemma AbsorbDownThenUp(up: DirEntry, down: DirEntry)
    requires Halves(up, down)
    ensures Absorb(Absorb(map[], down), up) == Merged(up, down)
  {
  }

  /** Scanning a listing of two entries: the first, then the second. */
  lemma ScanPair(a: DirEntry, b: DirEntry)
    ensures Scan([a, b]) == Absorb(Absorb(map[], a), b)
  {
    assert [a, b][..1] == [a];
    assert [a][..0] == [];
    assert Scan([]) == map[];
    assert Scan([a]) == Absorb(map[], a);
  }

  /**
    Round trip with the loader: a directory holding just the two created
    files, listed in either order, loads as one migration with the version,
    the name and the two templates.
   */
  lemma CreatedPairLoads(version: int, name: string)
    requires MinInt64 <= version <= MaxInt64 && LoadableName(name)
    ensures var created := Migration(version, name, UpTemplate, DownTemplate);
            Catalog([UpFile(version, name), DownFile(version, name)]) == [created] &&
            Catalog([DownFile(version, name), UpFile(version, name)]) == [created]
  {
    var up, down := UpFile(version, name), DownFile(version, name);
    UpFileParses(version, name);
    DownFileParses(version, name);
    ScanPair(up, down);
    ScanPair(down, up);
    AbsorbUpThenDown(up, down);
    AbsorbDownThenUp(up, down);
    ArrangeSingle(version, Migration(version, name, UpTemplate, DownTemplate));
  }

  /**
    A successful `NewMigration` into an empty directory leaves a directory that
    loads as exactly the new migration.
   */
  lemma NewMigrationLoadsBack(name: string, version: int)
    requires MinInt64 <= version <= MaxInt64 && LoadableName(name)
    ensures var c := NewMigration(true, name, version, true, true);
            c.err.None? && Catalog(c.written) == [Migration(version, name, UpTemplate, DownTemplate)]
  {
    CreatedPairLoads(version, name);
  }

  /**
    When the down file cannot be written, the up file stays behind, and it
    loads as a migration without a down script.
   */
  lemma FailedDownWriteLeavesUpOnly(name: string, version: int)
    requires MinInt64 <= version <= MaxInt64 && LoadableName(name)
    ensures var c := NewMigration(true, name, version, true, false);
            c.err == Some(DownWriteFailed) && Catalog(c.written) == [Migration(version, name, UpTemplate, "")]
  {
    var up := UpFile(version, name);
    UpFileParses(version, name);
    assert [up][..0] == [];
    assert Scan([up]) == map[version := Migration(version, name, UpTemplate, "")];
    ArrangeSingle(version, Migration(version, name, UpTemplate, ""));
  }
}
