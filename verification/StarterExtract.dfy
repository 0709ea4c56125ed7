/** Safe entry paths and the capped extraction of `packages/cli/src/lib/starter.ts`. */
module StarterExtract {
  import opened Wrappers
  import opened Bytes
  import opened TarReader

  const SLASH_BYTE: Byte := 47
  const BACKSLASH: Byte := 92
  const DOT: Bytes := [46]
  const DOT_DOT: Bytes := [46, 46]
  const DOT_SLASH: Bytes := [46, 47]

  /** An absolute directory or file: its segments from the root. */
  type Path = seq<Bytes>

  // ---------------------------------------------------------------- splitting and joining

  /** `s.split('/')`. */
  function SplitSlash(s: Bytes): (segs: seq<Bytes>)
    decreases |s|
  {
    var i := FindFrom(s, SLASH_BYTE, 0);
    if i == |s| then [s] else [s[..i]] + SplitSlash(s[i + 1..])
  }

  function JoinSlash(segs: seq<Bytes>): Bytes {
    if segs == [] then []
    else if |segs| == 1 then segs[0]
    else segs[0] + [SLASH_BYTE] + JoinSlash(segs[1..])
  }

  predicate Kept(seg: Bytes) {
    seg != [] && seg != DOT
  }

  function KeepSegments(segs: seq<Bytes>): (kept: seq<Bytes>)
    ensures forall seg | seg in kept :: Kept(seg) && seg in segs
    ensures forall seg | seg in segs && Kept(seg) :: seg in kept
  {
    if segs == [] then []
    else (if Kept(segs[0]) then [segs[0]] else []) + KeepSegments(segs[1..])
  }

  // ---------------------------------------------------------------- safeEntryPath

  function ToSlashes(s: Bytes): (r: Bytes)
  {
    if s == [] then [] else [if s[0] == BACKSLASH then SLASH_BYTE else s[0]] + ToSlashes(s[1..])
  }

  predicate IsLetter(b: Byte) {
    65 <= b <= 90 || 97 <= b <= 122
  }

  predicate StartsWithDrive(s: Bytes) {
    |s| >= 2 && IsLetter(s[0]) && s[1] == 58
  }

  /** One leading `./` gone, backslashes turned. */
  function Normalized(name: Bytes): Bytes {
    ToSlashes(if DOT_SLASH <= name then name[2..] else name)
  }

  function SafeEntryPath(name: Bytes): Option<Bytes> {
    if name == [] || NUL in name then None
    else
      var n := Normalized(name);
      if n != [] && n[0] == SLASH_BYTE then None
      else if StartsWithDrive(n) then None
      else
        var segments := KeepSegments(SplitSlash(n));
        if DOT_DOT in segments || segments == [] then None else Some(JoinSlash(segments))
  }

  /** POSIX `path.resolve(base, rel)` for an absolute, normalized `base`. */
  function Resolve(base: Path, rel: Bytes): Path {
    Walk(if rel != [] && rel[0] == SLASH_BYTE then [] else base, SplitSlash(rel))
  }

  function Walk(base: Path, segs: seq<Bytes>): Path
    decreases |segs|
  {
    if segs == [] then base
    else if !Kept(segs[0]) then Walk(base, segs[1..])
    else if segs[0] == DOT_DOT then Walk(if base == [] then [] else base[..|base| - 1], segs[1..])
    else Walk(base + [segs[0]], segs[1..])
  }

  /** A parent segment goes up, not above the root; an absolute path starts at the root, whatever the base. */
  lemma ResolveRules(base: Path, rel: Bytes)
    ensures Resolve(base, [46, 46]) == if base == [] then [] else base[..|base| - 1]
    ensures Resolve(base, [47] + rel) == Resolve([], rel)
  {
    assert SplitSlash([46, 46]) == [[46, 46]];
    assert [[46, 46]][1..] == [];
    FindFromIs([47] + rel, SLASH_BYTE, 0, 0);
    assert ([47] + rel)[1..] == rel && ([47] + rel)[..0] == [];
    assert ([[]] + SplitSlash(rel))[1..] == SplitSlash(rel);
  }

  lemma {:induction false} WalkDown(base: Path, segs: seq<Bytes>)
    requires DOT_DOT !in segs
    ensures Walk(base, segs) == base + KeepSegments(segs)
    decreases |segs|
  {
    if segs != [] {
      var next := if Kept(segs[0]) then base + [segs[0]] else base;
      WalkDown(next, segs[1..]);
    }
  }

  ghost predicate Plain(seg: Bytes) {
    seg != [] && SLASH_BYTE !in seg && NUL !in seg && BACKSLASH !in seg
  }

  lemma {:induction false} JoinThenSplit(segs: seq<Bytes>)
    requires segs != [] && Plain(segs[0]) && forall seg | seg in segs :: Plain(seg)
    ensures SplitSlash(JoinSlash(segs)) == segs
    ensures JoinSlash(segs) != [] && JoinSlash(segs)[0] == segs[0][0]
  {
    var s := JoinSlash(segs);
    var seg := segs[0];
    assert Plain(seg);
    if |segs| == 1 {
      assert forall j | 0 <= j < |s| :: s[j] in seg;
      assert segs == [s];
    } else {
      assert forall j | 0 <= j < |seg| :: s[j] == seg[j] && seg[j] in seg;
      FindFromIs(s, SLASH_BYTE, 0, |seg|);
      assert s[..|seg|] == seg && s[|seg| + 1..] == JoinSlash(segs[1..]);
      JoinThenSplit(segs[1..]);
    }
  }

  lemma {:induction false} SplitSegmentsHaveNoSlash(s: Bytes)
    ensures forall seg | seg in SplitSlash(s) :: SLASH_BYTE !in seg && forall b | b in seg :: b in s
    decreases |s|
  {
    var i := FindFrom(s, SLASH_BYTE, 0);
    if i == |s| {
      assert forall b | b in s :: b != SLASH_BYTE;
    } else {
      SplitSegmentsHaveNoSlash(s[i + 1..]);
      assert forall b | b in s[..i] :: b != SLASH_BYTE && b in s;
      assert forall b | b in s[i + 1..] :: b in s;
    }
  }

  lemma {:induction false} ToSlashesBytes(s: Bytes)
    ensures forall b | b in ToSlashes(s) :: b != BACKSLASH && (b == SLASH_BYTE || b in s)
  {
    if s != [] {
      ToSlashesBytes(s[1..]);
      assert forall b | b in s[1..] :: b in s;
    }
  }

  /** The segments an accepted path is made of. */
  lemma SafeSegments(name: Bytes)
    requires SafeEntryPath(name).Some?
    ensures var segs := KeepSegments(SplitSlash(Normalized(name)));
            && segs != [] && (forall seg | seg in segs :: Plain(seg) && seg != DOT && seg != DOT_DOT)
            && SafeEntryPath(name) == Some(JoinSlash(segs))
            && SplitSlash(JoinSlash(segs)) == segs
  {
    hide SplitSlash, ToSlashes, JoinSlash;
    var n := Normalized(name);
    var segs := KeepSegments(SplitSlash(n));
    var tail := if DOT_SLASH <= name then name[2..] else name;
    ToSlashesBytes(tail);
    SplitSegmentsHaveNoSlash(n);
    assert forall b | b in tail :: b in name;
    forall seg | seg in segs ensures Plain(seg) {
      assert seg in SplitSlash(n);
      assert forall b | b in seg :: b in n;
    }
    JoinThenSplit(segs);
  }

  lemma {:induction false} KeepAll(segs: seq<Bytes>)
    requires forall seg | seg in segs :: Kept(seg)
    ensures KeepSegments(segs) == segs
  {
    if segs != [] { KeepAll(segs[1..]); }
  }

  /**
   An accepted path names the file the archive meant, and that file lies strictly below the destination:
   resolving it only ever walks down.
   */
  lemma SafePathStaysInside(base: Path, name: Bytes)
    requires SafeEntryPath(name).Some?
    ensures var rel := SafeEntryPath(name).value;
            && Resolve(base, rel) == base + SplitSlash(rel)
            && Resolve(base, rel) == Resolve(base, Normalized(name))
            && |Resolve(base, rel)| > |base|
  {
    SafeSegments(name);
    var n := Normalized(name);
    var segs := KeepSegments(SplitSlash(n));
    hide SafeEntryPath, SplitSlash, JoinSlash, KeepSegments, Walk, ToSlashes;
    assert Kept(DOT_DOT);
    WalkDown(base, SplitSlash(n));
    KeepAll(segs);
    WalkDown(base, segs);
    NoLeadingSlash(name);
  }

  /** An absolute path as text. */
  function PathText(p: Path): Bytes {
    [SLASH_BYTE] + JoinSlash(p)
  }

  /** The extraction loop's own check that a resolved path is the destination or starts with it and a slash. */
  predicate SecondCheck(dest: Path, abs: Path) {
    PathText(abs) == PathText(dest) || PathText(dest) + [SLASH_BYTE] <= PathText(abs)
  }

  /** On accepted paths the second check refuses nothing, unless the destination is the root: then everything. */
  lemma SecondCheckOnlyMindsTheRoot(dest: Path, name: Bytes)
    requires SafeEntryPath(name).Some?
    ensures SecondCheck(dest, Resolve(dest, SafeEntryPath(name).value)) <==> dest != []
  {
    hide SafeEntryPath, Resolve, JoinSlash, SplitSlash;
    var rel := SafeEntryPath(name).value;
    SafePathStaysInside(dest, name);
    NoLeadingSlash(name);
    if dest == [] {
      JoinNothing();
      assert dest + SplitSlash(rel) == SplitSlash(rel);
      assert PathText(Resolve(dest, rel)) == [SLASH_BYTE] + rel && PathText(dest) == [SLASH_BYTE] + [];
      assert ([SLASH_BYTE] + rel)[1] == rel[0] && ([SLASH_BYTE] + [] + [SLASH_BYTE])[1] == SLASH_BYTE;
    } else {
      JoinOfConcat(dest, SplitSlash(rel));
      assert PathText(dest + SplitSlash(rel)) == PathText(dest) + [SLASH_BYTE] + rel;
    }
  }

  lemma JoinNothing()
    ensures JoinSlash([]) == []
  {
  }

  lemma {:induction false} JoinOfConcat(a: seq<Bytes>, b: seq<Bytes>)
    requires a != [] && b != []
    ensures JoinSlash(a + b) == JoinSlash(a) + [SLASH_BYTE] + JoinSlash(b)
  {
    if |a| == 1 {
      assert (a + b)[1..] == b;
    } else {
      assert (a + b)[1..] == a[1..] + b;
      JoinOfConcat(a[1..], b);
    }
  }

  lemma NoLeadingSlash(name: Bytes)
    requires SafeEntryPath(name).Some?
    ensures var rel := SafeEntryPath(name).value;
            && rel != [] && rel[0] != SLASH_BYTE && JoinSlash(SplitSlash(rel)) == rel
            && (Normalized(name) == [] || Normalized(name)[0] != SLASH_BYTE)
  {
    SafeSegments(name);
    var segs := KeepSegments(SplitSlash(Normalized(name)));
    JoinThenSplit(segs);
    assert Plain(segs[0]) && segs[0][0] in segs[0];
  }

  /** Accepted paths are fixed points, except those that come to begin with a drive letter. */
  lemma SafePathIdempotence(name: Bytes)
    requires SafeEntryPath(name).Some?
    ensures var rel := SafeEntryPath(name).value;
            SafeEntryPath(rel) == if StartsWithDrive(rel) then None else Some(rel)
  {
    var rel := SafeEntryPath(name).value;
    SafeSegments(name);
    NoLeadingSlash(name);
    var segs := SplitSlash(rel);
    KeepAll(segs);
    hide SplitSlash, KeepSegments;
    JoinedBytes(segs);
    assert !(DOT_SLASH <= rel) by {
      DotSlashSplit(rel);
    }
    NoBackslashToTurn(rel);
  }

  lemma DotSlashSplit(s: Bytes)
    ensures DOT_SLASH <= s ==> DOT in SplitSlash(s)
  {
    if DOT_SLASH <= s {
      SplitAfterDot(s[2..]);
      assert DOT_SLASH + s[2..] == s && SplitSlash(s)[0] == DOT;
    }
  }

  lemma KeepAfterDot(segs: seq<Bytes>)
    ensures KeepSegments([DOT] + segs) == KeepSegments(segs)
  {
    assert ([DOT] + segs)[1..] == segs;
  }

  lemma SplitAfterDot(rel: Bytes)
    ensures SplitSlash(DOT_SLASH + rel) == [DOT] + SplitSlash(rel)
  {
    var n := DOT_SLASH + rel;
    FindFromIs(n, SLASH_BYTE, 0, 1);
    assert n[..1] == DOT && n[2..] == rel;
  }

  lemma {:induction false} JoinedBytes(segs: seq<Bytes>)
    requires forall seg | seg in segs :: Plain(seg)
    ensures NUL !in JoinSlash(segs) && BACKSLASH !in JoinSlash(segs)
  {
    if segs != [] {
      assert Plain(segs[0]);
      JoinedBytes(segs[1..]);
    }
  }

  lemma {:induction false} NoBackslashToTurn(s: Bytes)
    requires BACKSLASH !in s
    ensures ToSlashes(s) == s
  {
    if s != [] {
      NoBackslashToTurn(s[1..]);
      assert s[0] in s;
    }
  }

  ghost predicate PlainNames(segs: seq<Bytes>) {
    segs != [] && Plain(segs[0]) && forall seg | seg in segs :: Plain(seg) && seg != DOT && seg != DOT_DOT
  }

  /**
   A path behind two leading `./` is accepted even when it begins with a drive letter, which the check only
   looks for behind the first: so `././C:/x` comes out as `C:/x`, and `C:/x` is then refused.
   */
  lemma DriveLetterSurvivesOneCleaning(segs: seq<Bytes>)
    requires PlainNames(segs)
    ensures var rel := JoinSlash(segs);
            && SafeEntryPath(DOT_SLASH + DOT_SLASH + rel) == Some(rel)
            && (StartsWithDrive(rel) ==> SafeEntryPath(rel) == None)
  {
    hide JoinSlash, SplitSlash, KeepSegments;
    var rel := JoinSlash(segs);
    var n := DOT_SLASH + rel;
    var name := DOT_SLASH + DOT_SLASH + rel;
    JoinThenSplit(segs);
    JoinedBytes(segs);
    assert name[2..] == n;
    NoBackslashToTurn(n);
    assert SplitSlash(n) == [DOT] + segs by { SplitAfterDot(rel); }
    KeepAll(segs);
    KeepAfterDot(segs);
    SafePathIdempotence(name);
  }

  // ---------------------------------------------------------------- which names are accepted

  /** The name without one leading `./`. */
  function Unprefixed(name: Bytes): Bytes {
    if |name| >= 2 && name[0] == 46 && name[1] == 47 then name[2..] else name
  }

  /** Backslashes read as slashes. */
  function Turned(s: Bytes): (t: Bytes)
    ensures |t| == |s|
  {
    seq(|s|, i requires 0 <= i < |s| => if s[i] == 92 then 47 else s[i])
  }

  function WithSlashes(segs: seq<Bytes>): Bytes
    requires segs != []
  {
    if |segs| == 1 then segs[0] else segs[0] + [47] + WithSlashes(segs[1..])
  }

  /** The segments that name something: neither empty nor a dot. */
  function Naming(segs: seq<Bytes>): seq<Bytes> {
    if segs == [] then []
    else (if segs[0] == [] || segs[0] == [46] then [] else [segs[0]]) + Naming(segs[1..])
  }

  /** `A:` to `Z:`, or `a:` to `z:`. */
  predicate BeginsWithDrive(t: Bytes) {
    |t| >= 2 && t[1] == 58 && (65 <= t[0] <= 90 || 97 <= t[0] <= 122)
  }

  lemma {:induction false} TurnedIsToSlashes(s: Bytes)
    ensures ToSlashes(s) == Turned(s)
  {
    if s != [] { TurnedIsToSlashes(s[1..]); }
  }

  lemma {:induction false} SplitIsUnique(s: Bytes)
    ensures SplitSlash(s) != [] && WithSlashes(SplitSlash(s)) == s
    ensures forall seg | seg in SplitSlash(s) :: 47 !in seg
    decreases |s|
  {
    var i := FindFrom(s, SLASH_BYTE, 0);
    if i < |s| {
      SplitIsUnique(s[i + 1..]);
      assert s == s[..i] + [47] + s[i + 1..];
      assert SplitSlash(s)[1..] == SplitSlash(s[i + 1..]);
    }
  }

  lemma {:induction false} KeptAreNaming(segs: seq<Bytes>)
    ensures KeepSegments(segs) == Naming(segs)
  {
    if segs != [] { KeptAreNaming(segs[1..]); }
  }

  lemma {:induction false} JoinedWithSlashes(segs: seq<Bytes>)
    requires segs != []
    ensures JoinSlash(segs) == WithSlashes(segs)
  {
    if |segs| > 1 { JoinedWithSlashes(segs[1..]); }
  }

  /**
   Which names are accepted, and as what. Take one leading `./` off, read backslashes as slashes, and cut at slashes:
   refused are the empty name, one with a NUL, one that then begins with a slash or a drive letter, one with a `..`
   segment, and one of which no segment names anything; all others become those segments with slashes between them.
   */
  lemma SafePathMeaning(name: Bytes) returns (segs: seq<Bytes>)
    ensures segs != [] && WithSlashes(segs) == Turned(Unprefixed(name)) && forall seg | seg in segs :: 47 !in seg
    ensures var t := Turned(Unprefixed(name));
            SafeEntryPath(name) ==
            if name == [] || 0 in name || (t != [] && t[0] == 47) || BeginsWithDrive(t) || [46, 46] in segs
               || Naming(segs) == [] then None
            else Some(WithSlashes(Naming(segs)))
  {
    hide SplitSlash, KeepSegments, JoinSlash, Naming, ToSlashes, Turned;
    TurnedIsToSlashes(Unprefixed(name));
    assert DOT_SLASH <= name <==> |name| >= 2 && name[0] == 46 && name[1] == 47;
    assert Normalized(name) == Turned(Unprefixed(name));
    segs := SplitSlash(Normalized(name));
    SplitIsUnique(Normalized(name));
    KeptAreNaming(segs);
    if Naming(segs) != [] { JoinedWithSlashes(Naming(segs)); }
    assert [46, 46] in KeepSegments(segs) <==> [46, 46] in segs;
  }

  // ---------------------------------------------------------------- extraction

  const MAX_BYTES := 50 * 1024 * 1024
  const MAX_FILES := 5000
  const MAX_FILE_BYTES := 5 * 1024 * 1024

  datatype LimitError = FileTooLarge | TotalTooLarge | TooManyFiles

  datatype Counts = Counts(files: nat, bytes: nat)

  datatype Written = Written(path: Path, size: nat, data: Bytes)

  /** Entries with an accepted name are extracted, unless the destination is the root directory. */
  predicate Wanted(e: TarEntry, dest: Path) {
    SafeEntryPath(e.name).Some? && dest != []
  }

  function Target(e: TarEntry, dest: Path): Path
    requires Wanted(e, dest)
  {
    dest + SplitSlash(SafeEntryPath(e.name).value)
  }

  /** The regular files among the wanted entries, in archive order, where they belong. */
  function SafeFiles(entries: seq<TarEntry>, dest: Path): seq<Written> {
    if entries == [] then []
    else
      var front, e := SafeFiles(entries[..|entries| - 1], dest), entries[|entries| - 1];
      if e.kind == File && Wanted(e, dest) then front + [Written(Target(e, dest), e.size, e.data)] else front
  }

  /** The directories of the archive and those its files lie in. */
  function Directories(entries: seq<TarEntry>, dest: Path): seq<Path> {
    if entries == [] then []
    else
      var front, e := Directories(entries[..|entries| - 1], dest), entries[|entries| - 1];
      if !Wanted(e, dest) || e.kind == Other then front
      else front + [if e.kind == Directory then Target(e, dest) else Parent(Target(e, dest))]
  }

  /** `path.dirname`. */
  function Parent(p: Path): Path {
    if p == [] then [] else p[..|p| - 1]
  }

  function TotalSize(ws: seq<Written>): nat {
    if ws == [] then 0 else TotalSize(ws[..|ws| - 1]) + ws[|ws| - 1].size
  }

  /** The first limit that writing `w` after `ws` would break. */
  function BrokenLimit(ws: seq<Written>, w: Written): LimitError {
    if w.size > 5_242_880 then FileTooLarge
    else if TotalSize(ws) + w.size > 52_428_800 then TotalTooLarge
    else TooManyFiles
  }

  /** At most 5000 files, 50 MiB in all and 5 MiB each. */
  ghost predicate WithinLimits(ws: seq<Written>) {
    && |ws| <= 5000 && TotalSize(ws) <= 52_428_800
    && forall w | w in ws :: w.size <= 5_242_880
  }

  /**
   Everything written or created lies under `dest`. The files written are the safe files of the archive, or
   their longest prefix within the limits, in which case the extraction fails.
   */
  method Extract(entries: seq<TarEntry>, dest: Path)
    returns (outcome: Result<Counts, LimitError>, made: seq<Path>, written: seq<Written>)
    ensures forall d | d in made :: dest <= d
    ensures forall w | w in written :: dest < w.path
    ensures WithinLimits(written) && written <= SafeFiles(entries, dest)
    ensures outcome.Ok? <==> WithinLimits(SafeFiles(entries, dest))
    ensures outcome.Ok? ==>
              written == SafeFiles(entries, dest) && outcome.value == Counts(|written|, TotalSize(written))
    ensures outcome.Err? ==>
              && |written| < |SafeFiles(entries, dest)|
              && !WithinLimits(SafeFiles(entries, dest)[..|written| + 1])
              && outcome.error == BrokenLimit(written, SafeFiles(entries, dest)[|written|])
    ensures made <= Directories(entries, dest) && (outcome.Ok? ==> made == Directories(entries, dest))
  {
    hide SafeEntryPath, SplitSlash, Resolve, SafeFiles, WithinLimits, TotalSize, Directories, Wanted, Target,
         SecondCheck;
    SafeFilesOfNone(entries, dest);
    made, written := [], [];
    var fileCount, byteCount := 0, 0;
    for i := 0 to |entries|
      invariant forall d | d in made :: dest <= d
      invariant forall w | w in written :: dest < w.path
      invariant WithinLimits(written) && written == SafeFiles(entries[..i], dest)
      invariant made == Directories(entries[..i], dest)
      invariant fileCount == |written| && byteCount == TotalSize(written)
    {
      var entry := entries[i];
      SafeFilesOfOneMore(entries, dest, i);
      DirectoriesOfPrefix(entries, dest, i);
      var rel := SafeEntryPath(entry.name);
      WantedTarget(entry, dest);
      if rel.None? { continue; }
      var abs := Resolve(dest, rel.value);
      if !SecondCheck(dest, abs) { continue; }
      if entry.kind == Directory {
        made := made + [abs];
        continue;
      }
      if entry.kind != File { continue; }
      var w := Written(abs, entry.size, entry.data);
      LimitsOfOneMore(written, w);
      if entry.size > MAX_FILE_BYTES {
        StopAt(entries, dest, i, written, w);
        outcome := Err(FileTooLarge);
        return;
      }
      byteCount := byteCount + entry.size;
      if byteCount > MAX_BYTES {
        StopAt(entries, dest, i, written, w);
        outcome := Err(TotalTooLarge);
        return;
      }
      fileCount := fileCount + 1;
      if fileCount > MAX_FILES {
        StopAt(entries, dest, i, written, w);
        outcome := Err(TooManyFiles);
        return;
      }
      made := made + [Parent(abs)];
      written := written + [w];
    }
    assert entries[..|entries|] == entries;
    outcome := Ok(Counts(fileCount, byteCount));
  }

  lemma WantedTarget(e: TarEntry, dest: Path)
    ensures SafeEntryPath(e.name).Some? ==>
              var abs := Resolve(dest, SafeEntryPath(e.name).value);
              && (SecondCheck(dest, abs) <==> Wanted(e, dest))
              && (Wanted(e, dest) ==> Target(e, dest) == abs && dest < abs)
    ensures Wanted(e, dest) ==> SafeEntryPath(e.name).Some?
  {
    hide SecondCheck, SafeEntryPath, Resolve, SplitSlash;
    if SafeEntryPath(e.name).Some? {
      SafePathStaysInside(dest, e.name);
      SecondCheckOnlyMindsTheRoot(dest, e.name);
    }
  }

  lemma {:induction false} DirectoriesOfPrefix(entries: seq<TarEntry>, dest: Path, n: nat)
    requires n <= |entries|
    ensures Directories(entries[..n], dest) <= Directories(entries, dest)
  {
    hide Wanted, Target;
    if n < |entries| {
      assert entries[..|entries| - 1][..n] == entries[..n];
      DirectoriesOfPrefix(entries[..|entries| - 1], dest, n);
    } else {
      assert entries[..n] == entries;
    }
  }

  /** Once a prefix of the safe files breaks a limit, so do they all. */
  lemma StopAt(entries: seq<TarEntry>, dest: Path, i: nat, written: seq<Written>, w: Written)
    requires i < |entries| && SafeFiles(entries[..i + 1], dest) == written + [w]
    requires !WithinLimits(written + [w])
    ensures var all := SafeFiles(entries, dest);
            written + [w] <= all && all[..|written| + 1] == written + [w] && !WithinLimits(all)
  {
    hide SafeFiles, WithinLimits;
    SafeFilesOfPrefix(entries, dest, i + 1);
    var all := SafeFiles(entries, dest);
    assert all[..|written| + 1] == written + [w];
    LimitsOfPrefix(all, |written| + 1);
  }

  lemma {:induction false} SafeFilesOfPrefix(entries: seq<TarEntry>, dest: Path, n: nat)
    requires n <= |entries|
    ensures SafeFiles(entries[..n], dest) <= SafeFiles(entries, dest)
  {
    if n < |entries| {
      assert entries[..|entries| - 1][..n] == entries[..n];
      SafeFilesOfPrefix(entries[..|entries| - 1], dest, n);
    } else {
      assert entries[..n] == entries;
    }
  }

  lemma LimitsOfOneMore(ws: seq<Written>, w: Written)
    ensures TotalSize(ws + [w]) == TotalSize(ws) + w.size
    ensures WithinLimits(ws + [w]) <==>
            WithinLimits(ws) && |ws| + 1 <= 5000 && TotalSize(ws) + w.size <= 52_428_800 && w.size <= 5_242_880
  {
    assert (ws + [w])[..|ws|] == ws;
    assert forall v | v in ws :: v in ws + [w];
  }

  lemma SafeFilesOfNone(entries: seq<TarEntry>, dest: Path)
    ensures SafeFiles(entries[..0], dest) == [] && Directories(entries[..0], dest) == []
    ensures WithinLimits([]) && TotalSize([]) == 0
  {
  }

  lemma SafeFilesOfOneMore(entries: seq<TarEntry>, dest: Path, i: nat)
    requires i < |entries|
    ensures var e, front := entries[i], SafeFiles(entries[..i], dest);
            SafeFiles(entries[..i + 1], dest) ==
            if e.kind == File && Wanted(e, dest) then front + [Written(Target(e, dest), e.size, e.data)] else front
    ensures var e, front := entries[i], Directories(entries[..i], dest);
            Directories(entries[..i + 1], dest) ==
            if !Wanted(e, dest) || e.kind == Other then front
            else front + [if e.kind == Directory then Target(e, dest) else Parent(Target(e, dest))]
  {
    hide Wanted, Target;
    assert entries[..i + 1][..i] == entries[..i];
  }

  lemma {:induction false} LimitsOfPrefix(ws: seq<Written>, n: nat)
    requires n <= |ws|
    ensures WithinLimits(ws) ==> WithinLimits(ws[..n])
    decreases |ws| - n
  {
    if n < |ws| {
      LimitsOfPrefix(ws, n + 1);
      assert ws[..n + 1] == ws[..n] + [ws[n]];
      LimitsOfOneMore(ws[..n], ws[n]);
    } else {
      assert ws[..n] == ws;
    }
  }
}
