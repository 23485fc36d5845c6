/** Storage layout validation: internal/config/config.go. */
module StorageLayout {
  import opened Strings
  import opened LogicalPaths

  datatype Config = Config(dataRoot: string, appDataDir: string, uploadDir: string,
                           trashDir: string, previewDir: string, databasePath: string)

  datatype Dir = DataRoot | AppData | Upload | Trash | Preview

  datatype LayoutError =
    | EmptyDir(dir: Dir)
    | RootDir(dir: Dir)
    | Overlap(left: Dir, right: Dir)
    | SameDir(left: Dir, right: Dir)
    | DatabaseInside(dir: Dir)

  function PathOf(c: Config, d: Dir): string {
    match d
    case DataRoot => c.dataRoot
    case AppData => c.appDataDir
    case Upload => c.uploadDir
    case Trash => c.trashDir
    case Preview => c.previewDir
  }

  /** strings.TrimSpace(s) == "". */
  predicate Blank(s: string) { forall i :: 0 <= i < |s| ==> IsSpace(s[i]) }

  predicate PathContains(cwd: string, parent: string, child: string) {
    RelContains(Abs(cwd, parent), Abs(cwd, child))
  }

  // ---------------------------------------------------------------- the checks, in the code's order

  function NonRootDir(c: Config, cwd: string, d: Dir): Option<LayoutError> {
    if Blank(PathOf(c, d)) then Some(EmptyDir(d))
    else if Abs(cwd, PathOf(c, d)) == "/" then Some(RootDir(d))
    else None
  }

  function NoOverlap(c: Config, cwd: string, l: Dir, r: Dir): Option<LayoutError> {
    if Blank(PathOf(c, l)) || Blank(PathOf(c, r)) then None
    else if PathContains(cwd, PathOf(c, l), PathOf(c, r)) || PathContains(cwd, PathOf(c, r), PathOf(c, l))
    then Some(Overlap(l, r))
    else None
  }

  function NotEqual(c: Config, cwd: string, l: Dir, r: Dir): Option<LayoutError> {
    if Blank(PathOf(c, l)) || Blank(PathOf(c, r)) then None
    else if Abs(cwd, PathOf(c, l)) == Abs(cwd, PathOf(c, r)) then Some(SameDir(l, r))
    else None
  }

  function DatabaseNotIn(c: Config, cwd: string, d: Dir): Option<LayoutError> {
    if Blank(c.databasePath) || Blank(PathOf(c, d)) then None
    else if PathContains(cwd, PathOf(c, d), c.databasePath) then Some(DatabaseInside(d))
    else None
  }

  /** Run the next check only when the first one passed. */
  function Then(first: Option<LayoutError>, next: Option<LayoutError>): Option<LayoutError> {
    if first.Some? then first else next
  }

  function ValidatePreviewCacheDir(c: Config, cwd: string): Option<LayoutError> {
    Then(NonRootDir(c, cwd, Preview),
    Then(NotEqual(c, cwd, Preview, AppData),
    Then(NoOverlap(c, cwd, Preview, DataRoot),
    Then(NoOverlap(c, cwd, Preview, Upload),
    Then(NoOverlap(c, cwd, Preview, Trash),
    if c.databasePath != "" then DatabaseNotIn(c, cwd, Preview) else None)))))
  }

  function ValidateStorageLayout(c: Config, cwd: string): Option<LayoutError> {
    Then(NonRootDir(c, cwd, DataRoot),
    Then(NonRootDir(c, cwd, AppData),
    Then(NonRootDir(c, cwd, Upload),
    Then(NonRootDir(c, cwd, Trash),
    Then(ValidatePreviewCacheDir(c, cwd),
    Then(NoOverlap(c, cwd, DataRoot, AppData),
    Then(NoOverlap(c, cwd, Upload, DataRoot),
    Then(NotEqual(c, cwd, Upload, AppData),
    Then(NoOverlap(c, cwd, Trash, DataRoot),
    Then(NotEqual(c, cwd, Trash, AppData),
    Then(NoOverlap(c, cwd, Upload, Trash),
    Then(if c.databasePath != "" then DatabaseNotIn(c, cwd, Upload) else None,
         if c.databasePath != "" then DatabaseNotIn(c, cwd, Trash) else None))))))))))))
  }

  // ---------------------------------------------------------------- what acceptance means

  /** Where a configured directory lies, as components below the filesystem root. */
  function Loc(c: Config, cwd: string, d: Dir): Comps { Parts(Abs(cwd, PathOf(c, d))) }

  /** No path lies in both subtrees. */
  ghost predicate DisjointTrees(a: Comps, b: Comps) {
    forall q: Comps :: !(IsPrefix(a, q) && IsPrefix(b, q))
  }

  lemma DisjointIffNoPrefix(a: Comps, b: Comps)
    ensures DisjointTrees(a, b) <==> !IsPrefix(a, b) && !IsPrefix(b, a)
  {
    assert IsPrefix(a, a) && IsPrefix(b, b);
    if !IsPrefix(a, b) && !IsPrefix(b, a) {
      forall q: Comps ensures !(IsPrefix(a, q) && IsPrefix(b, q)) {
        if |a| <= |b| <= |q| {
          assert q[..|b|][..|a|] == q[..|a|];
        } else if |b| <= |a| <= |q| {
          assert q[..|a|][..|b|] == q[..|b|];
        }
      }
    }
  }

  /** The pairs that must not share a path, and those that must differ. */
  ghost predicate PairsSafe(c: Config, cwd: string) {
    && Loc(c, cwd, Preview) != Loc(c, cwd, AppData)
    && DisjointTrees(Loc(c, cwd, Preview), Loc(c, cwd, DataRoot))
    && DisjointTrees(Loc(c, cwd, Preview), Loc(c, cwd, Upload))
    && DisjointTrees(Loc(c, cwd, Preview), Loc(c, cwd, Trash))
    && DisjointTrees(Loc(c, cwd, DataRoot), Loc(c, cwd, AppData))
    && DisjointTrees(Loc(c, cwd, Upload), Loc(c, cwd, DataRoot))
    && Loc(c, cwd, Upload) != Loc(c, cwd, AppData)
    && DisjointTrees(Loc(c, cwd, Trash), Loc(c, cwd, DataRoot))
    && Loc(c, cwd, Trash) != Loc(c, cwd, AppData)
    && DisjointTrees(Loc(c, cwd, Upload), Loc(c, cwd, Trash))
  }

  /** The layout in terms of the configured directories, as PairsSafe and the checks name them. */
  ghost predicate SafeDirs(c: Config, cwd: string) {
    && (forall d: Dir :: !Blank(PathOf(c, d)) && Loc(c, cwd, d) != [])
    && PairsSafe(c, cwd)
    && (!Blank(c.databasePath) ==>
          var db := Parts(Abs(cwd, c.databasePath));
          forall d :: d in {Upload, Trash, Preview} ==> !IsPrefix(Loc(c, cwd, d), db))
  }

  /** Where a configured path lies. */
  function Place(cwd: string, path: string): Comps { Parts(Abs(cwd, path)) }

  /** The layout the operator is promised, setting by setting: all five directories are set and none is
      the root; previews, data, uploads and trash share no path, and none of them is the application
      directory, which no data lies in and which lies in no data; a database, if set, lies in none of
      uploads, trash and previews. */
  ghost predicate SafeLayout(c: Config, cwd: string) {
    var data, app, uploads := Place(cwd, c.dataRoot), Place(cwd, c.appDataDir), Place(cwd, c.uploadDir);
    var trash, previews, db := Place(cwd, c.trashDir), Place(cwd, c.previewDir), Place(cwd, c.databasePath);
    && !Blank(c.dataRoot) && !Blank(c.appDataDir) && !Blank(c.uploadDir) && !Blank(c.trashDir) && !Blank(c.previewDir)
    && data != [] && app != [] && uploads != [] && trash != [] && previews != []
    && DisjointTrees(previews, data) && DisjointTrees(previews, uploads) && DisjointTrees(previews, trash)
    && DisjointTrees(uploads, data) && DisjointTrees(uploads, trash) && DisjointTrees(trash, data)
    && DisjointTrees(data, app) && previews != app && uploads != app && trash != app
    && (!Blank(c.databasePath) ==> !IsPrefix(uploads, db) && !IsPrefix(trash, db) && !IsPrefix(previews, db))
  }

  lemma SafeDirsIff(c: Config, cwd: string)
    ensures SafeDirs(c, cwd) <==> SafeLayout(c, cwd)
  {
    if SafeLayout(c, cwd) {
      forall d: Dir ensures !Blank(PathOf(c, d)) && Loc(c, cwd, d) != [] {
        match d case DataRoot => case AppData => case Upload => case Trash => case Preview =>
      }
    }
    if SafeDirs(c, cwd) {
      assert PathOf(c, DataRoot) == c.dataRoot && PathOf(c, AppData) == c.appDataDir;
      assert PathOf(c, Upload) == c.uploadDir && PathOf(c, Trash) == c.trashDir && PathOf(c, Preview) == c.previewDir;
    }
  }

  lemma BlankIff(s: string)
    ensures Blank(s) <==> forall ch :: ch in s ==> IsSpace(ch)
  {}

  lemma ContainsMeaning(cwd: string, p: string, q: string)
    requires HasPrefix(cwd, "/")
    ensures PathContains(cwd, p, q) <==> IsPrefix(Parts(Abs(cwd, p)), Parts(Abs(cwd, q)))
    ensures Abs(cwd, p) == Abs(cwd, q) <==> Parts(Abs(cwd, p)) == Parts(Abs(cwd, q))
    ensures Abs(cwd, p) == "/" <==> Parts(Abs(cwd, p)) == []
  {
    AbsIsClean(cwd, p);
    AbsIsClean(cwd, q);
    ContainmentIsPrefix(Parts(Abs(cwd, p)), Parts(Abs(cwd, q)));
    assert Join([], '/') == "";
  }

  /** One check passes exactly when its clause of SafeLayout holds. */
  lemma CheckMeaning(c: Config, cwd: string, l: Dir, r: Dir)
    requires HasPrefix(cwd, "/") && !Blank(PathOf(c, l)) && !Blank(PathOf(c, r))
    ensures NoOverlap(c, cwd, l, r).None? <==> DisjointTrees(Loc(c, cwd, l), Loc(c, cwd, r))
    ensures NotEqual(c, cwd, l, r).None? <==> Loc(c, cwd, l) != Loc(c, cwd, r)
  {
    ContainsMeaning(cwd, PathOf(c, l), PathOf(c, r));
    ContainsMeaning(cwd, PathOf(c, r), PathOf(c, l));
    DisjointIffNoPrefix(Loc(c, cwd, l), Loc(c, cwd, r));
  }

  lemma DirMeaning(c: Config, cwd: string, d: Dir)
    requires HasPrefix(cwd, "/")
    ensures NonRootDir(c, cwd, d).None? <==> !Blank(PathOf(c, d)) && Loc(c, cwd, d) != []
    ensures !Blank(PathOf(c, d)) ==>
              (DatabaseNotIn(c, cwd, d).None? <==>
               (!Blank(c.databasePath) ==> !IsPrefix(Loc(c, cwd, d), Parts(Abs(cwd, c.databasePath)))))
  {
    ContainsMeaning(cwd, PathOf(c, d), c.databasePath);
  }

  predicate PairsPass(c: Config, cwd: string) {
    && NotEqual(c, cwd, Preview, AppData).None?
    && NoOverlap(c, cwd, Preview, DataRoot).None?
    && NoOverlap(c, cwd, Preview, Upload).None?
    && NoOverlap(c, cwd, Preview, Trash).None?
    && NoOverlap(c, cwd, DataRoot, AppData).None?
    && NoOverlap(c, cwd, Upload, DataRoot).None?
    && NotEqual(c, cwd, Upload, AppData).None?
    && NoOverlap(c, cwd, Trash, DataRoot).None?
    && NotEqual(c, cwd, Trash, AppData).None?
    && NoOverlap(c, cwd, Upload, Trash).None?
  }

  lemma PairsMeaning(c: Config, cwd: string)
    requires HasPrefix(cwd, "/")
    requires forall d: Dir :: !Blank(PathOf(c, d))
    ensures PairsPass(c, cwd) <==> PairsSafe(c, cwd)
  {
    CheckMeaning(c, cwd, Preview, AppData);
    CheckMeaning(c, cwd, Preview, DataRoot);
    CheckMeaning(c, cwd, Preview, Upload);
    CheckMeaning(c, cwd, Preview, Trash);
    CheckMeaning(c, cwd, DataRoot, AppData);
    CheckMeaning(c, cwd, Upload, DataRoot);
    CheckMeaning(c, cwd, Upload, AppData);
    CheckMeaning(c, cwd, Trash, DataRoot);
    CheckMeaning(c, cwd, Trash, AppData);
    CheckMeaning(c, cwd, Upload, Trash);
  }

  /** The checks that validation amounts to, in any order. */
  predicate AllChecks(c: Config, cwd: string) {
    && (forall d: Dir :: NonRootDir(c, cwd, d).None?)
    && PairsPass(c, cwd)
    && (forall d: Dir :: d in {Upload, Trash, Preview} && c.databasePath != "" ==> DatabaseNotIn(c, cwd, d).None?)
  }

  lemma ChecksInOrder(c: Config, cwd: string)
    ensures ValidateStorageLayout(c, cwd).None? <==> AllChecks(c, cwd)
  {
    if ValidateStorageLayout(c, cwd).None? {
      forall d: Dir ensures NonRootDir(c, cwd, d).None? {
        match d case DataRoot => case AppData => case Upload => case Trash => case Preview =>
      }
    }
  }

  lemma DirsMeaning(c: Config, cwd: string)
    requires HasPrefix(cwd, "/")
    ensures (forall d: Dir :: NonRootDir(c, cwd, d).None?) <==>
            (forall d: Dir :: !Blank(PathOf(c, d)) && Loc(c, cwd, d) != [])
  {
    forall d: Dir { DirMeaning(c, cwd, d); }
  }

  lemma DatabaseMeaning(c: Config, cwd: string)
    requires HasPrefix(cwd, "/")
    requires forall d: Dir :: !Blank(PathOf(c, d))
    ensures (forall d: Dir :: d in {Upload, Trash, Preview} && c.databasePath != "" ==> DatabaseNotIn(c, cwd, d).None?)
       <==> (!Blank(c.databasePath) ==>
               forall d :: d in {Upload, Trash, Preview} ==>
                 !IsPrefix(Loc(c, cwd, d), Parts(Abs(cwd, c.databasePath))))
  {
    assert Blank("");
    forall d: Dir { DirMeaning(c, cwd, d); }
  }

  /** Validation accepts exactly the safe layouts: nothing unsafe passes, nothing safe is refused. */
  lemma AcceptedIffSafe(c: Config, cwd: string)
    requires HasPrefix(cwd, "/")
    ensures ValidateStorageLayout(c, cwd).None? <==> SafeLayout(c, cwd)
  {
    SafeDirsIff(c, cwd);
    ChecksInOrder(c, cwd);
    DirsMeaning(c, cwd);
    if forall d: Dir :: !Blank(PathOf(c, d)) && Loc(c, cwd, d) != [] {
      DatabaseMeaning(c, cwd);
      PairsMeaning(c, cwd);
    }
  }

  /** Under an accepted layout every path on disk belongs to at most one of the four working
      directories, and the database file is never swept up with uploads, trash or previews. */
  lemma AcceptedLayoutSeparates(c: Config, cwd: string, q: Comps, l: Dir, r: Dir)
    requires HasPrefix(cwd, "/")
    requires ValidateStorageLayout(c, cwd).None?
    requires l != r && l != AppData && r != AppData
    ensures !(IsPrefix(Loc(c, cwd, l), q) && IsPrefix(Loc(c, cwd, r), q))
  {
    AcceptedIffSafe(c, cwd);
    SafeDirsIff(c, cwd);
    assert PairsSafe(c, cwd);
  }

  // ---------------------------------------------------------------- what a refusal says

  /** What an error claims about the layout. */
  ghost predicate Holds(c: Config, cwd: string, e: LayoutError) {
    match e
    case EmptyDir(d) => Blank(PathOf(c, d))
    case RootDir(d) => Loc(c, cwd, d) == []
    case Overlap(l, r) => !DisjointTrees(Loc(c, cwd, l), Loc(c, cwd, r))
    case SameDir(l, r) => Loc(c, cwd, l) == Loc(c, cwd, r)
    case DatabaseInside(d) => !Blank(c.databasePath) && IsPrefix(Loc(c, cwd, d), Place(cwd, c.databasePath))
  }

  ghost predicate HoldsIfAny(c: Config, cwd: string, r: Option<LayoutError>) { r.Some? ==> Holds(c, cwd, r.value) }

  lemma CheckIsTrue(c: Config, cwd: string, l: Dir, r: Dir)
    requires HasPrefix(cwd, "/")
    ensures HoldsIfAny(c, cwd, NonRootDir(c, cwd, l)) && HoldsIfAny(c, cwd, NoOverlap(c, cwd, l, r))
    ensures HoldsIfAny(c, cwd, NotEqual(c, cwd, l, r)) && HoldsIfAny(c, cwd, DatabaseNotIn(c, cwd, l))
  {
    ContainsMeaning(cwd, PathOf(c, l), PathOf(c, r));
    ContainsMeaning(cwd, PathOf(c, r), PathOf(c, l));
    ContainsMeaning(cwd, PathOf(c, l), c.databasePath);
    DisjointIffNoPrefix(Loc(c, cwd, l), Loc(c, cwd, r));
  }

  /** Whatever a refused layout is refused for is so. */
  lemma RefusalIsTrue(c: Config, cwd: string)
    requires HasPrefix(cwd, "/")
    ensures HoldsIfAny(c, cwd, ValidateStorageLayout(c, cwd))
  {
    forall l: Dir, r: Dir
      ensures HoldsIfAny(c, cwd, NonRootDir(c, cwd, l)) && HoldsIfAny(c, cwd, NoOverlap(c, cwd, l, r))
      ensures HoldsIfAny(c, cwd, NotEqual(c, cwd, l, r)) && HoldsIfAny(c, cwd, DatabaseNotIn(c, cwd, l))
    {
      CheckIsTrue(c, cwd, l, r);
    }
    assert HoldsIfAny(c, cwd, ValidatePreviewCacheDir(c, cwd));
  }
}
