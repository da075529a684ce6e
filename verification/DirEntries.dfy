/** Directories as files of 36-byte entries, on the abstract file system: a map from inode numbers to bytes. */
module DirEntries {
  import opened Wrappers
  import opened Bytes
  import opened Counting
  import opened FileLayout
  import opened FileSteps

  const NAME_SZ: nat := 32
  const ENTRY: nat := 36

  type Name = seq<byte>

  /** What a local variable for an entry holds before it is filled in. */
  type Raw = e: seq<byte> | |e| == ENTRY witness seq(ENTRY, _ => 0 as byte)

  type Fs = map<nat, seq<byte>>

  /** A name that strcpy can put into an entry. */
  predicate NameOk(n: Name) { |n| < NAME_SZ && 0 !in n }

  /** strcmp(entry->filename, name) == 0 */
  predicate Matches(e: seq<byte>, n: Name)
    requires |e| == ENTRY && |n| < NAME_SZ
  {
    e[..|n|] == n && e[|n|] == 0
  }

  function IndexIn(e: seq<byte>): nat
    requires |e| == ENTRY
  {
    WordAt(e, NAME_SZ)
  }

  /** The entry add_inode_into_dir builds over whatever its variable held before. */
  function EntryOf(prior: Raw, n: Name, i: nat): (e: seq<byte>)
    requires |n| < NAME_SZ && i < WORD_LIMIT
    ensures |e| == ENTRY
  {
    Splice(Splice(prior, NAME_SZ, WordBytes(i)), 0, n + [0])
  }

  lemma EntryRoundTrip(prior: Raw, n: Name, i: nat, n': Name)
    requires NameOk(n) && NameOk(n') && i < WORD_LIMIT
    ensures Matches(EntryOf(prior, n, i), n') <==> n == n'
    ensures IndexIn(EntryOf(prior, n, i)) == i
  {
    var a := Splice(prior, NAME_SZ, WordBytes(i));
    var e := EntryOf(prior, n, i);
    WordRoundTrip(prior, NAME_SZ, i);
    WordLocal(a, e, NAME_SZ);
    assert forall k :: 0 <= k < |n| ==> e[k] == n[k];
    assert e[|n|] == 0;
    if n == n' { assert e[..|n|] == n; }
  }

  // Looking names up.

  function Entry(c: seq<byte>, k: nat): (e: seq<byte>)
    requires ENTRY * k + ENTRY <= |c|
    ensures |e| == ENTRY
  {
    c[ENTRY * k..ENTRY * k + ENTRY]
  }

  /** The first matching entry from the k-th on. */
  function Find(c: seq<byte>, k: nat, n: Name): Option<nat>
    requires |n| < NAME_SZ
    decreases |c| - ENTRY * k
  {
    if ENTRY * k + ENTRY > |c| then None
    else if Matches(Entry(c, k), n) then Some(IndexIn(Entry(c, k)))
    else Find(c, k + 1, n)
  }

  function FindName(c: seq<byte>, n: Name): Option<nat>
    requires |n| < NAME_SZ
  {
    Find(c, 0, n)
  }

  /** Names found stay found when the directory grows. */
  lemma {:induction false} FindPrefix(c: seq<byte>, c': seq<byte>, k: nat, n: Name)
    requires |n| < NAME_SZ && |c| <= |c'| && c'[..|c|] == c && Find(c, k, n).Some?
    ensures Find(c', k, n) == Find(c, k, n)
    decreases |c| - ENTRY * k
  {
    SameEntry(c, c', k);
    if !Matches(Entry(c, k), n) { FindPrefix(c, c', k + 1, n); }
  }

  lemma SameEntry(c: seq<byte>, c': seq<byte>, k: nat)
    requires |c| <= |c'| && c'[..|c|] == c && ENTRY * k + ENTRY <= |c|
    ensures Entry(c', k) == Entry(c, k)
  {
    var a, b := Entry(c', k), Entry(c, k);
    forall x | 0 <= x < ENTRY ensures a[x] == b[x] { assert c'[..|c|][ENTRY * k + x] == c[ENTRY * k + x]; }
  }

  /** A name not found before is found in the entry added, if it is that entry's name. */
  lemma {:induction false} FindAdded(c: seq<byte>, e: seq<byte>, k: nat, n: Name)
    requires |n| < NAME_SZ && |c| % ENTRY == 0 && |e| == ENTRY && Find(c, k, n) == None && ENTRY * k <= |c|
    ensures Find(c + e, k, n) == if Matches(e, n) then Some(IndexIn(e)) else None
    decreases |c| - ENTRY * k
  {
    var c' := c + e;
    if ENTRY * k + ENTRY <= |c| {
      assert Entry(c', k) == Entry(c, k);
      FindAdded(c, e, k + 1, n);
    } else {
      assert ENTRY * k == |c|;
      assert Entry(c', k) == e;
      assert Find(c', k + 1, n) == None;
    }
  }

  lemma LookupAdded(c: seq<byte>, e: seq<byte>, n: Name)
    requires |n| < NAME_SZ && |c| % ENTRY == 0 && |e| == ENTRY
    ensures FindName(c + e, n) ==
            if FindName(c, n).Some? then FindName(c, n) else if Matches(e, n) then Some(IndexIn(e)) else None
  {
    if FindName(c, n).Some? {
      assert (c + e)[..|c|] == c;
      FindPrefix(c, c + e, 0, n);
    } else {
      FindAdded(c, e, 0, n);
    }
  }

  /** Following names from directory d. */
  function Resolve(fs: Fs, d: nat, names: seq<Name>): Option<nat>
    requires forall i :: 0 <= i < |names| ==> |names[i]| < NAME_SZ
    decreases |names|
  {
    if names == [] then Some(d)
    else if d !in fs then None
    else
      match FindName(fs[d], names[0])
      case None => None
      case Some(i) => Resolve(fs, i, names[1..])
  }

  /** Files stay, and their bytes stay in front. */
  ghost predicate Grows(fs: Fs, fs': Fs) {
    forall i :: i in fs ==> i in fs' && |fs[i]| <= |fs'[i]| && fs'[i][..|fs[i]|] == fs[i]
  }

  lemma GrowsTrans(a: Fs, b: Fs, c: Fs)
    requires Grows(a, b) && Grows(b, c)
    ensures Grows(a, c)
  {
    forall i | i in a ensures i in c && |a[i]| <= |c[i]| && c[i][..|a[i]|] == a[i] {
      assert c[i][..|a[i]|] == c[i][..|b[i]|][..|a[i]|];
    }
  }

  /** Every path that resolved still resolves to the same file. */
  lemma {:induction false} ResolveKept(fs: Fs, fs': Fs, d: nat, names: seq<Name>)
    requires Grows(fs, fs') && (forall i :: 0 <= i < |names| ==> |names[i]| < NAME_SZ) && Resolve(fs, d, names).Some?
    ensures Resolve(fs', d, names) == Resolve(fs, d, names)
    decreases |names|
  {
    if names != [] {
      FindPrefix(fs[d], fs'[d], 0, names[0]);
      ResolveKept(fs, fs', FindName(fs[d], names[0]).value, names[1..]);
    }
  }

  // Making directories.

  const DOT: Name := [46]
  const DOTDOT: Name := [46, 46]

  /** add_inode_into_dir */
  function AddEntry(fs: Fs, d: nat, n: Name, i: nat, prior: Raw): Fs
    requires d in fs && |n| < NAME_SZ && i < WORD_LIMIT
  {
    fs[d := fs[d] + EntryOf(prior, n, i)]
  }

  /** The garbage under the three entries of a new directory. */
  datatype Garbage = Garbage(a: Raw, b: Raw, c: Raw)

  /** A new directory `i` called n in d: the entry in d, then "." and "..". */
  function MakeOne(fs: Fs, d: nat, n: Name, i: nat, g: Garbage): Fs
    requires d in fs && i !in fs && |n| < NAME_SZ && i < WORD_LIMIT && d < WORD_LIMIT
  {
    AddEntry(AddEntry(AddEntry(fs[i := []], d, n, i, g.a), i, DOT, i, g.b), i, DOTDOT, d, g.c)
  }

  /** One level of _create_dir. */
  lemma MakeOneMeans(fs: Fs, d: nat, n: Name, i: nat, g: Garbage)
    requires d in fs && i !in fs && NameOk(n) && i < WORD_LIMIT && d < WORD_LIMIT
    requires |fs[d]| % ENTRY == 0 && FindName(fs[d], n) == None
    ensures var fs' := MakeOne(fs, d, n, i, g);
            && fs'.Keys == fs.Keys + {i} && Grows(fs, fs')
            && FindName(fs'[d], n) == Some(i)
            && FindName(fs'[i], DOT) == Some(i) && FindName(fs'[i], DOTDOT) == Some(d)
  {
    MakeOneFiles(fs, d, n, i, g);
    hide MakeOne, EntryOf, FindName, NewDir, Matches, IndexIn, NameOk, Grows;
    LookupAdded(fs[d], EntryOf(g.a, n, i), n);
    EntryRoundTrip(g.a, n, i, n);
    DotNames();
    NewDirLookup(i, d, g, DOT);
    NewDirLookup(i, d, g, DOTDOT);
  }

  lemma DotNames()
    ensures NameOk(DOT) && NameOk(DOTDOT) && DOT != DOTDOT
  {
  }

  /** Two files change: the parent gets an entry, the new directory its two. */
  lemma MakeOneFiles(fs: Fs, d: nat, n: Name, i: nat, g: Garbage)
    requires d in fs && i !in fs && |n| < NAME_SZ && i < WORD_LIMIT && d < WORD_LIMIT
    ensures MakeOne(fs, d, n, i, g) == fs[d := fs[d] + EntryOf(g.a, n, i)][i := NewDir(i, d, g)]
    ensures Grows(fs, MakeOne(fs, d, n, i, g))
  {
    hide EntryOf;
    var fs' := MakeOne(fs, d, n, i, g);
    assert fs'[d] == fs[d] + EntryOf(g.a, n, i) && fs'[d][..|fs[d]|] == fs[d];
  }

  function NewDir(i: nat, d: nat, g: Garbage): (c: seq<byte>)
    requires i < WORD_LIMIT && d < WORD_LIMIT
    ensures |c| == 2 * ENTRY
  {
    [] + EntryOf(g.b, DOT, i) + EntryOf(g.c, DOTDOT, d)
  }

  lemma NewDirLookup(i: nat, d: nat, g: Garbage, m: Name)
    requires i < WORD_LIMIT && d < WORD_LIMIT && NameOk(m)
    ensures FindName(NewDir(i, d, g), m) == if m == DOT then Some(i) else if m == DOTDOT then Some(d) else None
  {
    assert NameOk(DOT) && NameOk(DOTDOT);
    EntryRoundTrip(g.b, DOT, i, m);
    EntryRoundTrip(g.c, DOTDOT, d, m);
    hide EntryOf, IndexIn, Matches;
    LookupAdded([], EntryOf(g.b, DOT, i), m);
    LookupAdded([] + EntryOf(g.b, DOT, i), EntryOf(g.c, DOTDOT, d), m);
  }

  // The whole path.

  predicate IsDir(fs: Fs, d: nat) { d in fs && d < WORD_LIMIT && |fs[d]| % ENTRY == 0 }

  /** How many bytes read_dir_entry asks for at a time: the seven whole entries that fit a block. */
  const READ_LEN: nat := 252

  /** A directory that read_dir_entry can search for n. The search ends with a read past the end, unless the length is
      a multiple of READ_LEN or the name is found before; past the end of a file that reaches the double level such a
      read fetches the inode's unused last pointer, which must then lie on the disk (`safe`). */
  predicate Searchable(c: seq<byte>, n: Name, safe: bool)
    requires |n| < NAME_SZ
  {
    && |c| % ENTRY == 0
    && (safe || |c| <= LEVEL_END1 || |c| % READ_LEN == 0 || FindName(c[..|c| / READ_LEN * READ_LEN], n).Some?)
  }

  /** The blocks that one more entry takes. */
  ghost function Cost(size: nat): nat {
    ActiveMonotone(size, size + ENTRY);
    SubsetCard(ActiveSet(size), ActiveSet(size + ENTRY));
    |ActiveSet(size + ENTRY)| - |ActiveSet(size)|
  }

  /** What _create_dir needs along its way, whatever inode numbers are handed out: every component met before the last
      is a directory that can be searched, and where a directory is made there are blocks for its parent's entry and for
      its own two, and an inode. Where nothing is made nothing is needed. */
  ghost predicate WalkOk(fs: Fs, safe: set<nat>, d: nat, names: seq<Name>, blocks: nat, inodes: nat)
    decreases |names|
  {
    names == [] ||
    (IsDir(fs, d) && NameOk(names[0]) && Searchable(fs[d], names[0], d in safe) &&
     match FindName(fs[d], names[0])
     case Some(i) => WalkOk(fs, safe, i, names[1..], blocks, inodes)
     case None =>
       && inodes > 0 && blocks >= Cost(|fs[d]|) + 1
       && forall i: nat, g: Garbage :: i !in fs && i < WORD_LIMIT ==>
            WalkOk(MakeOne(fs, d, names[0], i, g), safe, i, names[1..], blocks - Cost(|fs[d]|) - 1, inodes - 1))
  }

  /** _create_dir over the components of a path, with the inode numbers that get_free_disk_inode hands out. */
  ghost predicate Makes(fs: Fs, d: nat, names: seq<Name>, fs': Fs, r: nat)
    decreases |names|
  {
    if names == [] then fs' == fs && r == d
    else
      && IsDir(fs, d) && NameOk(names[0])
      && match FindName(fs[d], names[0])
         case Some(i) => Makes(fs, i, names[1..], fs', r)
         case None =>
           exists i: nat, g: Garbage :: i !in fs && i < WORD_LIMIT &&
               Makes(MakeOne(fs, d, names[0], i, g), i, names[1..], fs', r)
  }

  /** A directory made on the way: "." leads to itself and ".." to a directory that has it under one of the names. */
  ghost predicate Linked(fs: Fs, names: seq<Name>, i: nat) {
    && i in fs && FindName(fs[i], DOT) == Some(i)
    && exists p, k :: p in fs && 0 <= k < |names| && NameOk(names[k]) && FindName(fs[p], names[k]) == Some(i) &&
                      FindName(fs[i], DOTDOT) == Some(p)
  }

  lemma LinkedKept(fs: Fs, fs': Fs, names: seq<Name>, names': seq<Name>, i: nat)
    requires Grows(fs, fs') && Linked(fs, names, i) && forall n :: n in names ==> n in names'
    ensures Linked(fs', names', i)
  {
    var p, k :| p in fs && 0 <= k < |names| && NameOk(names[k]) && FindName(fs[p], names[k]) == Some(i) &&
                FindName(fs[i], DOTDOT) == Some(p);
    assert names[k] in names';
    var k' :| 0 <= k' < |names'| && names'[k'] == names[k];
    FindPrefix(fs[p], fs'[p], 0, names[k]);
    FindPrefix(fs[i], fs'[i], 0, DOT);
    FindPrefix(fs[i], fs'[i], 0, DOTDOT);
    assert NameOk(names'[k']) && FindName(fs'[p], names'[k']) == Some(i);
  }

  /** After _create_dir the names lead to the directory it returns, every directory it made is linked both ways, and
      files only grow, so every path that resolved before resolves to the same file. */
  lemma {:induction false} MakesPath(fs: Fs, d: nat, names: seq<Name>, fs': Fs, r: nat)
    requires Makes(fs, d, names, fs', r)
    ensures forall i :: 0 <= i < |names| ==> |names[i]| < NAME_SZ
    ensures Resolve(fs', d, names) == Some(r)
    ensures Grows(fs, fs') && forall i :: i in fs' && i !in fs ==> Linked(fs', names, i)
    decreases |names|
  {
    if names != [] {
      hide MakeOne, EntryOf, FindName, Find, Linked, Grows;
      var n, rest := names[0], names[1..];
      assert forall k :: 1 <= k < |names| ==> names[k] == rest[k - 1];
      match FindName(fs[d], n) {
        case Some(i) =>
          MakesPath(fs, i, rest, fs', r);
          Found(fs, fs', d, n);
          forall j | j in fs' && j !in fs ensures Linked(fs', names, j) { LinkedMore(fs', rest, names, j); }
        case None =>
          var i: nat, g: Garbage :|
            i !in fs && i < WORD_LIMIT && Makes(MakeOne(fs, d, n, i, g), i, rest, fs', r);
          MakesPath(MakeOne(fs, d, n, i, g), i, rest, fs', r);
          MadeThenRest(fs, d, names, i, g, fs');
      }
    }
  }

  lemma MadeThenRest(fs: Fs, d: nat, names: seq<Name>, i: nat, g: Garbage, fs': Fs)
    requires d in fs && i !in fs && i < WORD_LIMIT && d < WORD_LIMIT && |fs[d]| % ENTRY == 0
    requires names != [] && NameOk(names[0]) && FindName(fs[d], names[0]) == None
    requires var fs1 := MakeOne(fs, d, names[0], i, g);
             Grows(fs1, fs') && forall j :: j in fs' && j !in fs1 ==> Linked(fs', names[1..], j)
    ensures d in fs' && FindName(fs'[d], names[0]) == Some(i)
    ensures Grows(fs, fs') && forall j :: j in fs' && j !in fs ==> Linked(fs', names, j)
  {
    hide MakeOne, EntryOf, FindName, Find, Linked, Grows;
    var fs1 := MakeOne(fs, d, names[0], i, g);
    MakeOneMeans(fs, d, names[0], i, g);
    Found(fs1, fs', d, names[0]);
    GrowsTrans(fs, fs1, fs');
    forall j | j in fs' && j !in fs ensures Linked(fs', names, j) {
      if j == i {
        FirstLinked(fs1, names, i, d);
        LinkedKept(fs1, fs', names, names, i);
      } else {
        LinkedMore(fs', names[1..], names, j);
      }
    }
  }

  lemma FirstLinked(fs: Fs, names: seq<Name>, i: nat, d: nat)
    requires names != [] && d in fs && i in fs && NameOk(names[0]) && FindName(fs[d], names[0]) == Some(i)
    requires FindName(fs[i], DOT) == Some(i) && FindName(fs[i], DOTDOT) == Some(d)
    ensures Linked(fs, names, i)
  {
    hide FindName;
  }

  lemma Found(fs: Fs, fs': Fs, d: nat, n: Name)
    requires Grows(fs, fs') && d in fs && |n| < NAME_SZ && FindName(fs[d], n).Some?
    ensures d in fs' && FindName(fs'[d], n) == FindName(fs[d], n)
  {
    FindPrefix(fs[d], fs'[d], 0, n);
  }

  lemma LinkedMore(fs: Fs, names: seq<Name>, names': seq<Name>, i: nat)
    requires Linked(fs, names, i) && forall n :: n in names ==> n in names'
    ensures Linked(fs, names', i)
  {
    assert Grows(fs, fs);
    LinkedKept(fs, fs, names, names', i);
  }
}
