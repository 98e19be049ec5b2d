/**
  Directories and paths of the RAM disk (src/tar.c, src/vfs.c): which nodes a directory
  lists, and which node a path leads to.
 */
module Vfs {
  import opened Words
  import opened Tar
  import opened TarWalk

  // The root of the file system, or a node of the table.
  datatype Ref = Root | At(index: nat)

  datatype Dirent = Dirent(name: seq<byte>, ino: nat)

  type Name = seq<byte>

  // ---------- names ----------

  // No slash, except possibly as the last character.
  predicate Flat(rel: Name) {
    forall i :: 0 <= i < |rel| && rel[i] == SLASH ==> i == |rel| - 1
  }

  // A name without its trailing slash.
  function Chop(name: Name): Name {
    if EndsWithSlash(name) then name[..|name| - 1] else name
  }

  function Drop(name: Name, n: nat): Name {
    if n <= |name| then name[n..] else []
  }

  // What `is_direct_child` decides.
  predicate DirectChild(dir: Name, child: Name) {
    if dir == [SLASH] || dir == [] then Flat(child) else dir <= child && Flat(child[|dir|..])
  }

  // A directory named "/" goes through the same names as the root, and neither asks for a prefix.
  lemma SlashIsRoot(child: Name)
    ensures DirectChild([SLASH], child) == DirectChild([], child) == (forall i :: 0 <= i < |child| - 1 ==> child[i] != SLASH)
  {
  }

  // The scan for the first slash.
  method ScanFlat(rel: Name) returns (r: bool)
    ensures r == Flat(rel)
  {
    var i := 0;
    while i < |rel|
      invariant 0 <= i <= |rel|
      invariant forall k :: 0 <= k < i ==> rel[k] != SLASH
    {
      if rel[i] == SLASH {
        return i + 1 == |rel|;
      }
      i := i + 1;
    }
    return true;
  }

  method IsDirectChild(dir: Name, child: Name) returns (r: bool)
    ensures r == DirectChild(dir, child)
  {
    if dir == [SLASH] || |dir| == 0 {
      r := ScanFlat(child);
    } else if !(dir <= child) {
      r := false;
    } else {
      r := ScanFlat(child[|dir|..]);
    }
  }

  // ---------- listing and searching a directory ----------

  function Prefix(table: seq<Node>, at: Ref): Name {
    match at
    case Root => []
    case At(i) => if i < |table| then table[i].name else []
  }

  // Entry `i` is one of those the directory with this prefix goes through.
  predicate Child(table: seq<Node>, prefix: Name, i: int) {
    0 <= i < |table| && table[i].name != prefix && DirectChild(prefix, table[i].name)
  }

  predicate Matches(table: seq<Node>, prefix: Name, name: Name, i: int) {
    Child(table, prefix, i) && Chop(Drop(table[i].name, |prefix|)) == name
  }

  // The first match from `i` on.
  function FindFrom(table: seq<Node>, prefix: Name, name: Name, i: nat): (r: Option<nat>)
    requires i <= |table|
    ensures r.Some? ==> i <= r.value < |table| && Matches(table, prefix, name, r.value)
    ensures forall k :: i <= k < (if r.Some? then r.value else |table|) ==> !Matches(table, prefix, name, k)
    decreases |table| - i
  {
    if i == |table| then None
    else if Matches(table, prefix, name, i) then Some(i)
    else FindFrom(table, prefix, name, i + 1)
  }

  // `tar_finddir`
  method Finddir(table: seq<Node>, prefix: Name, name: Name) returns (r: Option<nat>)
    ensures r == FindFrom(table, prefix, name, 0)
  {
    for i := 0 to |table|
      invariant FindFrom(table, prefix, name, 0) == FindFrom(table, prefix, name, i)
    {
      if table[i].name != prefix {
        var child := IsDirectChild(prefix, table[i].name);
        if child && Chop(Drop(table[i].name, |prefix|)) == name {
          return Some(i);
        }
      }
    }
    return None;
  }

  // The children from `i` on, in table order.
  function Children(table: seq<Node>, prefix: Name, i: nat): (r: seq<nat>)
    requires i <= |table|
    decreases |table| - i
  {
    if i == |table| then []
    else (if Child(table, prefix, i) then [i] else []) + Children(table, prefix, i + 1)
  }

  // A token or listed name of at most 127 characters.
  function Cut(t: Name): Name {
    if |t| > 127 then t[..127] else t
  }

  function Listed(table: seq<Node>, prefix: Name, i: nat): Dirent
    requires i < |table|
  {
    Dirent(Cut(Chop(Drop(table[i].name, |prefix|))), i)
  }

  // The one static entry that every listing is returned in.
  class DirentBuffer {
    var entry: Dirent

    constructor ()
      ensures entry == Dirent([], 0)
    {
      entry := Dirent([], 0);
    }
  }

  // `tar_readdir`: fills the buffer, or returns NULL and leaves it.
  method Readdir(table: seq<Node>, prefix: Name, index: nat, buffer: DirentBuffer) returns (found: bool)
    modifies buffer
    ensures found <==> index < |Children(table, prefix, 0)|
    ensures found ==>
              && Children(table, prefix, 0)[index] < |table|
              && buffer.entry == Listed(table, prefix, Children(table, prefix, 0)[index])
    ensures !found ==> buffer.entry == old(buffer.entry)
  {
    hide Child;
    ghost var all := Children(table, prefix, 0);
    var count := 0;
    for i := 0 to |table|
      invariant count <= |all| && count <= index
      invariant all[count..] == Children(table, prefix, i)
      invariant buffer.entry == old(buffer.entry)
    {
      ChildStep(table, prefix, i);
      if table[i].name != prefix {
        var child := IsDirectChild(prefix, table[i].name);
        if child {
          assert all[count] == all[count..][0] == i;
          if count == index {
            buffer.entry := Listed(table, prefix, i);
            return true;
          }
          assert all[count..][1..] == all[count + 1..];
          count := count + 1;
        }
      }
    }
    return false;
  }

  lemma ChildStep(table: seq<Node>, prefix: Name, i: nat)
    requires i < |table|
    ensures Child(table, prefix, i) <==> table[i].name != prefix && DirectChild(prefix, table[i].name)
    ensures Child(table, prefix, i) ==> Children(table, prefix, i) == [i as nat] + Children(table, prefix, i + 1)
    ensures !Child(table, prefix, i) ==> Children(table, prefix, i) == Children(table, prefix, i + 1)
  {
  }

  // Strictly increasing, and all at least `from`.
  ghost predicate Ascends(c: seq<nat>, from: nat, below: nat) {
    && (forall k :: 0 <= k < |c| ==> from <= c[k] < below)
    && (forall j, k :: 0 <= j < k < |c| ==> c[j] < c[k])
  }

  lemma {:induction false} ChildrenAscend(table: seq<Node>, prefix: Name, i: nat)
    requires i <= |table|
    ensures Ascends(Children(table, prefix, i), i, |table|)
    decreases |table| - i
  {
    hide Child, Ascends;
    if i < |table| {
      ChildStep(table, prefix, i);
      ChildrenAscend(table, prefix, i + 1);
      AscendsBefore(Children(table, prefix, i + 1), i, |table|);
    } else {
      assert Ascends([], i, |table|) by { NothingAscends(i, |table|); }
    }
  }

  lemma NothingAscends(from: nat, below: nat)
    ensures Ascends([], from, below)
  {
  }

  lemma AscendsBefore(c: seq<nat>, from: nat, below: nat)
    requires Ascends(c, from + 1, below) && from < below
    ensures Ascends(c, from, below) && Ascends([from] + c, from, below)
  {
  }

  lemma {:induction false} ChildrenAre(table: seq<Node>, prefix: Name, i: nat, x: nat)
    requires i <= |table|
    ensures x in Children(table, prefix, i) <==> i <= x && Child(table, prefix, x)
    decreases |table| - i
  {
    if i < |table| {
      ChildStep(table, prefix, i);
      hide Child;
      ChildrenAre(table, prefix, i + 1, x);
    }
  }

  // A directory lists exactly its children, each of them once and in table order.
  lemma ListsEachChildOnce(table: seq<Node>, prefix: Name, i: nat)
    requires i <= |table|
    ensures Ascends(Children(table, prefix, i), i, |table|)
    ensures forall x: nat :: x in Children(table, prefix, i) <==> i <= x && Child(table, prefix, x)
  {
    hide Child, Children;
    ChildrenAscend(table, prefix, i);
    forall x: nat
      ensures x in Children(table, prefix, i) <==> i <= x && Child(table, prefix, x)
    {
      ChildrenAre(table, prefix, i, x);
    }
  }

  // ---------- dispatch and paths ----------

  predicate IsDirectory(table: seq<Node>, at: Ref) {
    at.Root? || (at.index < |table| && table[at.index].isDir)
  }

  // `finddir_fs`
  function FindIn(table: seq<Node>, at: Ref, name: Name): Option<Ref> {
    if !IsDirectory(table, at) then None
    else
      match FindFrom(table, Prefix(table, at), name, 0)
      case None => None
      case Some(i) => Some(At(i))
  }

  method FinddirFs(table: seq<Node>, at: Ref, name: Name) returns (r: Option<Ref>)
    ensures r == FindIn(table, at, name)
  {
    if !IsDirectory(table, at) {
      return None;
    }
    var i := Finddir(table, Prefix(table, at), name);
    return if i.Some? then Some(At(i.value)) else None;
  }

  // `readdir_fs`
  method ReaddirFs(table: seq<Node>, at: Ref, index: nat, buffer: DirentBuffer) returns (found: bool)
    modifies buffer
    ensures found <==> IsDirectory(table, at) && index < |Children(table, Prefix(table, at), 0)|
    ensures found ==>
              && Children(table, Prefix(table, at), 0)[index] < |table|
              && buffer.entry == Listed(table, Prefix(table, at), Children(table, Prefix(table, at), 0)[index])
    ensures !found ==> buffer.entry == old(buffer.entry)
  {
    if !IsDirectory(table, at) {
      return false;
    }
    found := Readdir(table, Prefix(table, at), index, buffer);
  }

  // The characters before the first slash.
  function Token(s: Name): (r: Name)
    ensures r <= s && SLASH !in r
    ensures |r| < |s| ==> s[|r|] == SLASH
  {
    if s == [] || s[0] == SLASH then [] else [s[0]] + Token(s[1..])
  }

  // The rest after a token and the slash that ends it.
  function AfterToken(s: Name): Name {
    if |Token(s)| < |s| then s[|Token(s)| + 1..] else []
  }

  // The non-empty components of a path.
  function Components(s: Name): (r: seq<Name>)
    ensures forall k :: 0 <= k < |r| ==> r[k] != [] && SLASH !in r[k]
    decreases |s|
  {
    if s == [] then []
    else (if Token(s) == [] then [] else [Token(s)]) + Components(AfterToken(s))
  }

  // One step for each component, each cut to the token buffer.
  function Resolve(table: seq<Node>, at: Ref, parts: seq<Name>): Option<Ref>
    decreases |parts|
  {
    if parts == [] then Some(at)
    else
      match FindIn(table, at, Cut(parts[0]))
      case None => None
      case Some(next) => Resolve(table, next, parts[1..])
  }

  function FindPath(table: seq<Node>, path: Name): Option<Ref> {
    if path == [] || path[0] != SLASH then None else Resolve(table, Root, Components(path[1..]))
  }

  // The inner loop: copies a token into the buffer, dropping what does not fit.
  method CopyToken(path: Name, start: nat, token: array<byte>) returns (i: nat, j: nat)
    requires start <= |path| && token.Length == 128
    modifies token
    ensures i == start + |Token(path[start..])| <= |path|
    ensures j <= 127 && token[..j] == Cut(Token(path[start..]))
  {
    ghost var whole := Token(path[start..]);
    i, j := start, 0;
    while i < |path| && path[i] != SLASH
      invariant start <= i <= start + |whole| <= |path|
      invariant j == (if i - start < 127 then i - start else 127)
      invariant token[..j] == whole[..j]
    {
      assert path[start..][i - start] == path[i];
      if j < 127 {
        token[j] := path[i];
        j := j + 1;
        assert token[..j] == token[..j - 1] + [whole[j - 1]];
      }
      i := i + 1;
    }
  }

  // `find_node_by_path`
  method FindNodeByPath(table: seq<Node>, path: Name) returns (r: Option<Ref>)
    ensures r == FindPath(table, path)
  {
    if |path| == 0 || path[0] != SLASH {
      return None;
    }
    if |path| == 1 {
      return Some(Root);
    }
    hide FindIn;
    var token := new byte[128];
    var current := Root;
    var i := 1;
    while i < |path|
      invariant 1 <= i <= |path|
      invariant FindPath(table, path) == Resolve(table, current, Components(path[i..]))
    {
      var end, j := CopyToken(path, i, token);
      NextComponent(path, i);
      i := if end < |path| then end + 1 else end;
      if j > 0 {
        var next := FinddirFs(table, current, token[..j]);
        if next.None? {
          return None;
        }
        current := next.value;
      }
    }
    return Some(current);
  }

  lemma NextComponent(path: Name, i: nat)
    requires i < |path|
    ensures
      var t := Token(path[i..]);
      var end := i + |t|;
      var rest := Components(path[(if end < |path| then end + 1 else end)..]);
      Components(path[i..]) == (if t == [] then rest else [t] + rest)
  {
    var s := path[i..];
    var end := i + |Token(s)|;
    if end < |path| {
      assert AfterToken(s) == path[end + 1..];
    } else {
      assert AfterToken(s) == path[end..] == [];
    }
  }

  // ---------- well-formed tables ----------

  // Empty, or non-empty components separated by single slashes, with perhaps one at the end.
  predicate ProperName(name: Name) {
    name != [] ==>
      var c := Chop(name);
      && c != [] && c[0] != SLASH && c[|c| - 1] != SLASH
      && (forall k :: 0 < k < |c| && c[k] == SLASH ==> c[k - 1] != SLASH)
  }

  // Each directory above `name` has an entry of its own.
  ghost predicate ParentsPresent(table: seq<Node>, name: Name) {
    forall k :: 0 <= k < |Chop(name)| && name[k] == SLASH ==> exists j :: 0 <= j < |table| && table[j].name == name[..k + 1]
  }

  // Proper names, unique up to a trailing slash, slash-ended directories, all parents present.
  ghost predicate Shaped(table: seq<Node>) {
    && (forall i :: 0 <= i < |table| ==>
          && ProperName(table[i].name) && ParentsPresent(table, table[i].name)
          && (table[i].name != [] ==> (table[i].isDir <==> EndsWithSlash(table[i].name))))
    && (forall i, j :: 0 <= i < j < |table| ==> Chop(table[i].name) != Chop(table[j].name))
  }

  // Shorter than a cut token can be; the 100-byte name field of an archive header keeps to it.
  const MAX_NAME := 126

  ghost predicate WellFormed(table: seq<Node>) {
    Shaped(table) && forall i :: 0 <= i < |table| ==> |table[i].name| <= MAX_NAME
  }

  // The prefix of a directory: empty at the root, else a name that ends in a slash.
  predicate IsPrefix(p: Name) {
    p == [] || (EndsWithSlash(p) && ProperName(p))
  }

  predicate IsComponent(c: Name) {
    c != [] && SLASH !in c
  }

  lemma ChopSplit(p: Name, rel: Name)
    requires rel != []
    ensures Chop(p + rel) == p + Chop(rel)
  {
  }

  lemma PrefixMeaning(p: Name, name: Name)
    requires IsPrefix(p)
    ensures DirectChild(p, name) <==> p <= name && Flat(name[|p|..])
  {
    if p == [] {
      assert name[0..] == name;
    }
  }

  // A name below `p` whose last component is `c`, with or without a trailing slash.
  lemma BelowPrefix(p: Name, c: Name, name: Name)
    requires IsComponent(c) && Chop(name) == p + c
    ensures p < name && Flat(name[|p|..]) && Chop(name[|p|..]) == c
  {
    assert name == p + c || name == p + c + [SLASH];
    assert name[|p|..] == c || name[|p|..] == c + [SLASH];
  }

  // An entry matches a component exactly when its name is the directory's plus that component.
  lemma MatchesIff(table: seq<Node>, p: Name, c: Name, i: nat)
    requires i < |table| && IsPrefix(p) && IsComponent(c)
    ensures Matches(table, p, c, i) <==> Chop(table[i].name) == p + c
  {
    hide Flat, Chop, DirectChild, IsPrefix;
    var name := table[i].name;
    PrefixMeaning(p, name);
    if Matches(table, p, c, i) {
      assert name == p + name[|p|..];
      ChopSplit(p, name[|p|..]);
    }
    if Chop(name) == p + c {
      BelowPrefix(p, c, name);
    }
  }

  lemma FinddirExact(table: seq<Node>, p: Name, c: Name, i: nat)
    requires Shaped(table) && IsPrefix(p) && IsComponent(c)
    ensures FindFrom(table, p, c, 0) == Some(i) <==> i < |table| && Chop(table[i].name) == p + c
  {
    hide Matches, ParentsPresent, ProperName;
    var r := FindFrom(table, p, c, 0);
    if r.Some? {
      MatchesIff(table, p, c, r.value);
    }
    if i < |table| {
      MatchesIff(table, p, c, i);
    }
  }

  // The name a list of components spells.
  function Joined(parts: seq<Name>): Name
    requires parts != []
  {
    if |parts| == 1 then parts[0] else parts[0] + [SLASH] + Joined(parts[1..])
  }

  predicate AreComponents(parts: seq<Name>) {
    forall k :: 0 <= k < |parts| ==> IsComponent(parts[k])
  }

  // A directory the walk can stand in.
  ghost predicate Standing(table: seq<Node>, at: Ref) {
    IsDirectory(table, at) && IsPrefix(Prefix(table, at))
  }

  // A component too long for the token buffer is looked up by its first 127 characters: it
  // is rightly not found exactly when no entry has that shorter name.
  lemma CutHarmlessIff(table: seq<Node>, at: Ref, c: Name)
    requires Shaped(table) && Standing(table, at) && IsComponent(c) && |c| > 127
    ensures FindIn(table, at, Cut(c)).None? <==>
              forall i :: 0 <= i < |table| ==> Chop(table[i].name) != Prefix(table, at) + Cut(c)
  {
    hide Shaped, IsPrefix;
    var p := Prefix(table, at);
    var r := FindFrom(table, p, Cut(c), 0);
    if r.Some? {
      FinddirExact(table, p, Cut(c), r.value);
    }
    forall i | 0 <= i < |table| && Chop(table[i].name) == p + Cut(c)
      ensures r.Some?
    {
      FinddirExact(table, p, Cut(c), i);
    }
  }

  // One step of the walk.
  lemma FindInExact(table: seq<Node>, at: Ref, c: Name, i: nat)
    requires WellFormed(table) && Standing(table, at) && IsComponent(c)
    ensures FindIn(table, at, Cut(c)) == Some(At(i)) <==>
              i < |table| && Chop(table[i].name) == Prefix(table, at) + c
    ensures FindIn(table, at, Cut(c)) != Some(Root)
  {
    hide FindFrom, ParentsPresent, ProperName, IsPrefix;
    if |c| > 127 {
      CutHarmlessIff(table, at, c);
    } else {
      FinddirExact(table, Prefix(table, at), c, i);
    }
  }

  // The directory above a longer name is in the table, and the walk can go on from it.
  lemma StepExists(table: seq<Node>, p: Name, c: Name, rest: Name, i: nat) returns (j: nat)
    requires WellFormed(table) && i < |table| && Chop(table[i].name) == p + c + [SLASH] + rest
    ensures j < |table| && table[j].name == p + c + [SLASH]
  {
    hide ProperName;
    var name := table[i].name;
    var k := |p + c|;
    assert name[..k + 1] == Chop(name)[..k + 1] == p + c + [SLASH];
    assert name[k] == Chop(name)[k] == SLASH;
    j :| 0 <= j < |table| && table[j].name == name[..k + 1];
  }

  lemma StandsIn(table: seq<Node>, j: nat)
    requires WellFormed(table) && j < |table| && table[j].isDir && table[j].name != []
    ensures Standing(table, At(j))
  {
  }

  // The walk reaches exactly the entry whose name the components spell.
  lemma {:induction false} ResolveExact(table: seq<Node>, at: Ref, parts: seq<Name>, i: nat)
    requires WellFormed(table) && Standing(table, at) && AreComponents(parts) && parts != []
    ensures Resolve(table, at, parts) == Some(At(i)) <==>
              i < |table| && Chop(table[i].name) == Prefix(table, at) + Joined(parts)
    ensures Resolve(table, at, parts) != Some(Root)
    decreases |parts|
  {
    hide WellFormed, FindIn, Chop, Standing;
    var p, c, rest := Prefix(table, at), parts[0], parts[1..];
    var next := FindIn(table, at, Cut(c));
    FindInExact(table, at, c, i);
    if rest == [] {
      assert Joined(parts) == c;
    } else {
      assert p + Joined(parts) == p + c + [SLASH] + Joined(rest);
      if i < |table| && Chop(table[i].name) == p + Joined(parts) {
        var j := StepExists(table, p, c, Joined(rest), i);
        StepLands(table, at, c, j);
        ResolveExact(table, At(j), rest, i);
      } else if next.Some? {
        FindInExact(table, at, c, next.value.index);
        GoesOn(table, next.value.index, rest[0]);
        if table[next.value.index].isDir {
          ResolveExact(table, next.value, rest, i);
        }
      }
    }
  }

  lemma StepLands(table: seq<Node>, at: Ref, c: Name, j: nat)
    requires WellFormed(table) && Standing(table, at) && IsComponent(c)
    requires j < |table| && table[j].name == Prefix(table, at) + c + [SLASH]
    ensures FindIn(table, at, Cut(c)) == Some(At(j)) && Standing(table, At(j))
  {
    FindInExact(table, at, c, j);
    StandsIn(table, j);
  }

  // From an entry the walk goes on exactly when that is a directory.
  lemma GoesOn(table: seq<Node>, j: nat, c: Name)
    requires WellFormed(table) && j < |table| && Chop(table[j].name) != []
    ensures table[j].isDir ==> Standing(table, At(j)) && table[j].name == Chop(table[j].name) + [SLASH]
    ensures !table[j].isDir ==> FindIn(table, At(j), Cut(c)).None?
  {
    hide ParentsPresent;
    if table[j].isDir {
      StandsIn(table, j);
    }
  }

  // A path leads to an entry exactly when its components spell that entry's name, and to the
  // root exactly when it has none.
  lemma PathExact(table: seq<Node>, path: Name, i: nat)
    requires WellFormed(table)
    ensures
      var parts := if path == [] then [] else Components(path[1..]);
      && (FindPath(table, path) == Some(At(i)) <==>
            && path != [] && path[0] == SLASH && parts != []
            && i < |table| && Chop(table[i].name) == Joined(parts))
      && (FindPath(table, path) == Some(Root) <==> path != [] && path[0] == SLASH && parts == [])
  {
    hide WellFormed;
    if path != [] && path[0] == SLASH {
      var parts := Components(path[1..]);
      if parts != [] {
        ResolveExact(table, Root, parts, i);
        assert [] + Joined(parts) == Joined(parts);
      }
    }
  }

  // What is listed is found: looking a listed name up gives back the child it stands for.
  // Its number is its place in the table, and its name the part after the directory's.
  lemma ListedIsFound(table: seq<Node>, at: Ref, k: nat)
    requires WellFormed(table) && Standing(table, at)
    requires k < |Children(table, Prefix(table, at), 0)|
    ensures
      var i := Children(table, Prefix(table, at), 0)[k];
      i < |table| &&
      var e := Listed(table, Prefix(table, at), i);
      && e.ino == i && IsComponent(e.name) && Chop(table[i].name) == Prefix(table, at) + e.name
      && FindIn(table, at, e.name) == Some(At(i))
  {
    hide WellFormed, Standing, Chop, FindIn, Child;
    var p := Prefix(table, at);
    ListsEachChildOnce(table, p, 0);
    var i := Children(table, p, 0)[k];
    assert i in Children(table, p, 0);
    var c := ChildName(table, at, i);
    FindInExact(table, at, c, i);
    assert |table[i].name| <= MAX_NAME by { ShortName(table, i); }
    ChopShorter(table[i].name);
  }

  lemma ShortName(table: seq<Node>, i: nat)
    requires WellFormed(table) && i < |table|
    ensures |table[i].name| <= MAX_NAME
  {
    hide Shaped;
  }

  lemma ChopShorter(name: Name)
    ensures |Chop(name)| <= |name|
  {
  }

  lemma ChildName(table: seq<Node>, at: Ref, i: nat) returns (c: Name)
    requires WellFormed(table) && Standing(table, at) && Child(table, Prefix(table, at), i)
    ensures IsComponent(c) && Chop(table[i].name) == Prefix(table, at) + c
    ensures Listed(table, Prefix(table, at), i).name == Cut(c)
  {
    hide IsPrefix, ParentsPresent;
    var p, name := Prefix(table, at), table[i].name;
    PrefixMeaning(p, name);
    var rel := name[|p|..];
    assert name == p + rel;
    ChopSplit(p, rel);
    c := Chop(rel);
    LastComponent(p, rel);
  }

  lemma LastComponent(p: Name, rel: Name)
    requires IsPrefix(p) && rel != [] && Flat(rel) && ProperName(p + rel)
    ensures IsComponent(Chop(rel))
  {
    ChopSplit(p, rel);
  }

  // From archive to bytes: when `tar_init` has walked the archive of these entries, a path
  // that spells the name of one of them leads to a node from which reads return its data.
  lemma PathReadsFile(mem: seq<byte>, address: word, size: word, es: seq<Entry>, path: Name, i: nat, sizes: seq<word>)
    requires forall k :: 0 <= k < |es| ==> ProperEntry(es[k])
    requires Holds(mem, address, Archive(es)) && EndsAt(mem, address + |Archive(es)|, Add32(address, size))
    requires address + |Archive(es)| <= Add32(address, size)
    requires WalkEnds(mem, address, Add32(address, size))
    requires WellFormed(Take(Nodes(mem, address, Add32(address, size)), 128))
    requires i < |es| && i < 128 && Sum(sizes) < WORD_SIZE
    requires path != [] && path[0] == SLASH && Components(path[1..]) != []
    requires Chop(Stripped(es[i].name)) == Joined(Components(path[1..]))
    ensures
      var table := Take(Nodes(mem, address, Add32(address, size)), 128);
      && FindPath(table, path) == Some(At(i)) && i < |table|
      && table[i].impl + table[i].length <= |mem|
      && Reads(mem, table[i], 0, sizes) == es[i].data[..if Sum(sizes) < |es[i].data| then Sum(sizes) else |es[i].data|]
  {
    hide WellFormed, Nodes, Archive, ExpectedNodes, Holds, EndsAt, WalkEnds, Reads, FindPath, Components, Joined, Chop;
    hide ProperEntry, Add32;
    var end := Add32(address, size);
    WalkInvertsArchive(mem, address, end, es);
    ExpectedAt(es, address, i);
    FileReadsBack(mem, address, es, i, sizes);
    PathExact(Take(Nodes(mem, address, end), 128), path, i);
  }
}
