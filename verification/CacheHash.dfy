/** The master hash over the cache directory. File contents and hashed text are strings of bytes; the
    hash function is a parameter. */
module CacheHash {
  import opened Names
  import opened Bytes

  const NUL := '\0'

  type Hash = string -> string

  type Entries = seq<(string, string)>

  function Frame(e: (string, string), rest: string): string {
    e.0 + [NUL] + (e.1 + [NUL] + rest)
  }

  /** One name and hash after the other, a NUL behind each. */
  function Framed(entries: Entries): string {
    if entries == [] then "" else Frame(entries[0], Framed(entries[1..]))
  }

  predicate NulFree(s: string) {
    NUL !in s
  }

  predicate AllNulFree(entries: Entries) {
    forall i :: 0 <= i < |entries| ==> NulFree(entries[i].0) && NulFree(entries[i].1)
  }

  function FirstNul(s: string): nat {
    if s == "" || s[0] == NUL then 0 else 1 + FirstNul(s[1..])
  }

  lemma {:induction false} FirstNulAfter(a: string, x: string)
    requires NulFree(a)
    ensures FirstNul(a + [NUL] + x) == |a|
  {
    if a != "" {
      FirstNulAfter(a[1..], x);
      assert (a + [NUL] + x)[1..] == a[1..] + [NUL] + x;
    }
  }

  lemma CutAtNul(a: string, x: string, b: string, y: string)
    requires NulFree(a) && NulFree(b) && a + [NUL] + x == b + [NUL] + y
    ensures a == b && x == y
  {
    FirstNulAfter(a, x);
    FirstNulAfter(b, y);
    var s := a + [NUL] + x;
    assert a == s[..|a|] && x == s[|a| + 1..];
    assert b == s[..|b|] && y == s[|b| + 1..];
  }

  /** The framing loses nothing. */
  lemma {:induction false} FramedIsInjective(a: Entries, b: Entries)
    requires AllNulFree(a) && AllNulFree(b) && Framed(a) == Framed(b)
    ensures a == b
  {
    if a != [] && b != [] {
      CutAtNul(a[0].0, a[0].1 + [NUL] + Framed(a[1..]), b[0].0, b[0].1 + [NUL] + Framed(b[1..]));
      CutAtNul(a[0].1, Framed(a[1..]), b[0].1, Framed(b[1..]));
      FramedIsInjective(a[1..], b[1..]);
      assert a == [a[0]] + a[1..] && b == [b[0]] + b[1..];
    }
  }

  lemma {:induction false} FramedAppend(entries: Entries, e: (string, string))
    ensures Framed(entries + [e]) == Framed(entries) + Frame(e, "")
  {
    if entries == [] {
      assert entries + [e] == [e] && [e][1..] == [];
    } else {
      FramedAppend(entries[1..], e);
      assert (entries + [e])[1..] == entries[1..] + [e];
      FrameCarries(entries[0], Framed(entries[1..]), Frame(e, ""));
    }
  }

  lemma FrameCarries(e: (string, string), a: string, b: string)
    ensures Frame(e, a + b) == Frame(e, a) + b
  {
    assert e.1 + [NUL] + (a + b) == e.1 + [NUL] + a + b;
  }

  /** A file that can be read has a content. */
  type Files = map<string, Option<string>>

  const SUFFIX := ".json"

  function BaseName(path: string): string {
    if path == "" || path[|path| - 1] == '/' then "" else BaseName(path[..|path| - 1]) + [path[|path| - 1]]
  }

  /** The extension is what follows the last dot, unless that dot begins the name. */
  predicate IsJson(path: string) {
    var name := BaseName(path);
    |name| > |SUFFIX| && name[|name| - |SUFFIX|..] == SUFFIX
  }

  /** What the hash covers: every readable json file, with its content. */
  function Covered(files: Files): map<string, string> {
    map p | p in files && IsJson(p) && files[p].Some? :: files[p].value
  }

  function HashesOf(files: Files, sha: Hash): map<string, string> {
    map p | p in Covered(files) :: sha(Covered(files)[p])
  }

  function Rows(hashes: map<string, string>, keys: seq<string>): Entries
    requires forall k :: k in keys ==> k in hashes
  {
    seq(|keys|, i requires 0 <= i < |keys| => (keys[i], hashes[keys[i]]))
  }

  ghost function RowsOf(hashes: map<string, string>): Entries {
    InOrderMembers(hashes.Keys);
    Rows(hashes, InOrder(hashes.Keys))
  }

  /** The covered files in the order of their names, each with the hash of its content. */
  ghost function EntriesOf(files: Files, sha: Hash): Entries {
    RowsOf(HashesOf(files, sha))
  }

  ghost function Digest(files: Files, sha: Hash): string {
    sha(Framed(EntriesOf(files, sha)))
  }

  /** Walk the directory in whatever order it lists its files. */
  method HashFiles(files: Files, sha: Hash) returns (hashes: map<string, string>)
    ensures hashes == HashesOf(files, sha)
  {
    var listed := Unordered(files.Keys);
    hashes := map[];
    ghost var covered := Covered(files);
    for i := 0 to |listed|
      invariant forall p :: p in hashes <==> p in listed[..i] && p in covered
      invariant forall p :: p in hashes ==> hashes[p] == sha(covered[p])
    {
      assert listed[i] in Elements(listed);
      assert listed[..i + 1] == listed[..i] + [listed[i]];
      var path := listed[i];
      if IsJson(path) && files[path].Some? {
        hashes := hashes[path := sha(files[path].value)];
      }
    }
    assert listed[..|listed|] == listed;
    assert forall p :: p in covered ==> p in Elements(listed);
  }

  method NamesInOrder(hashes: map<string, string>) returns (names: seq<string>)
    ensures names == InOrder(hashes.Keys) && forall n :: n in names <==> n in hashes
  {
    names := Unordered(hashes.Keys);
    SortedListing(names, hashes.Keys);
    InOrderMembers(hashes.Keys);
    names := Sorted(names);
  }

  /** The text fed to the running hash. */
  method Feed(entries: Entries) returns (text: string)
    ensures text == Framed(entries)
  {
    text := "";
    for i := 0 to |entries|
      invariant text == Framed(entries[..i])
    {
      FramedAppend(entries[..i], entries[i]);
      assert entries[..i + 1] == entries[..i] + [entries[i]];
      text := text + Frame(entries[i], "");
    }
    assert entries[..|entries|] == entries;
  }

  /** Whether the cache directory is there, and whether what is there can be listed. */
  datatype Access = Gone | Unlistable | Listable

  ghost function CurrentHash(access: Access, files: Files, sha: Hash): string {
    if access == Listable then Digest(files, sha) else ""
  }

  /** Hash in the order of the names; what cannot be listed has the empty hash. */
  method Compute(access: Access, files: Files, sha: Hash) returns (digest: string)
    ensures digest == CurrentHash(access, files, sha)
  {
    if access != Listable {
      return "";
    }
    var hashes := HashFiles(files, sha);
    var names := NamesInOrder(hashes);
    var text := Feed(Rows(hashes, names));
    digest := sha(text);
  }

  /** The rows of the hashed text: every name with its hash, in strictly ascending order of the names. */
  ghost predicate Lists(entries: Entries, hashes: map<string, string>) {
    && (forall i, j :: 0 <= i < j < |entries| ==> Less(entries[i].0, entries[j].0))
    && (forall p :: p in hashes <==> exists i :: 0 <= i < |entries| && entries[i].0 == p)
    && (forall i :: 0 <= i < |entries| ==> entries[i].0 in hashes && entries[i].1 == hashes[entries[i].0])
  }

  lemma RowsAreListed(hashes: map<string, string>, keys: seq<string>, entries: Entries)
    requires Ascending(keys) && NoRepeats(keys) && (forall k :: k in keys <==> k in hashes)
    requires entries == Rows(hashes, keys)
    ensures Lists(entries, hashes)
  {
    assert forall i :: 0 <= i < |keys| ==> keys[i] in keys && entries[i] == (keys[i], hashes[keys[i]]);
    forall i, j | 0 <= i < j < |entries| ensures Less(entries[i].0, entries[j].0) {
      assert AtMost(keys[i], keys[j]) && keys[i] != keys[j];
    }
    forall p | p in hashes ensures exists i :: 0 <= i < |entries| && entries[i].0 == p {
      assert p in keys;
      var i :| 0 <= i < |keys| && keys[i] == p;
      assert entries[i].0 == p;
    }
  }

  /** The digest is the hash of the rows, put together, that list every covered file with the hash of its
      content. */
  lemma DigestIsSpelled(files: Files, sha: Hash) returns (entries: Entries)
    ensures Lists(entries, map p | p in Covered(files) :: sha(Covered(files)[p]))
    ensures Digest(files, sha) == sha(Framed(entries))
  {
    var hashes := HashesOf(files, sha);
    InOrderMembers(hashes.Keys);
    entries := EntriesOf(files, sha);
    RowsAreListed(hashes, InOrder(hashes.Keys), entries);
  }

  /** One entry's text, written out. */
  lemma FramedSpelled(name: string, hash: string, rest: Entries)
    ensures Framed([(name, hash)] + rest) == name + "\0" + hash + "\0" + Framed(rest)
  {
    assert ([(name, hash)] + rest)[1..] == rest;
    assert "\0" == [NUL];
  }

  /** The hash tells apart the two texts and the file contents it is asked to tell apart. */
  ghost predicate NoCollision(sha: Hash, a: Files, b: Files) {
    && (forall p, q :: p in Covered(a) && q in Covered(b) && sha(Covered(a)[p]) == sha(Covered(b)[q]) ==>
          Covered(a)[p] == Covered(b)[q])
    && (Digest(a, sha) == Digest(b, sha) ==> Framed(EntriesOf(a, sha)) == Framed(EntriesOf(b, sha)))
  }

  /** Hashes are written in hexadecimal, and no path holds a NUL. */
  ghost predicate Plain(sha: Hash, files: Files) {
    && (forall s :: NulFree(sha(s)) && sha(s) != "")
    && (forall p :: p in files ==> NulFree(p))
  }

  /** Two directories have the same master hash exactly when they have the same readable json files with
      the same contents. */
  lemma SameDigestExactly(a: Files, b: Files, sha: Hash)
    requires Plain(sha, a) && Plain(sha, b) && NoCollision(sha, a, b)
    ensures Digest(a, sha) == Digest(b, sha) <==> Covered(a) == Covered(b)
  {
    if Digest(a, sha) == Digest(b, sha) {
      EntriesAreNulFree(a, sha);
      EntriesAreNulFree(b, sha);
      FramedIsInjective(EntriesOf(a, sha), EntriesOf(b, sha));
      SameRows(HashesOf(a, sha), HashesOf(b, sha));
      SameHashes(a, b, sha);
    }
  }

  lemma EntriesAreNulFree(files: Files, sha: Hash)
    requires Plain(sha, files)
    ensures AllNulFree(EntriesOf(files, sha))
  {
    var hashes := HashesOf(files, sha);
    InOrderMembers(hashes.Keys);
    var keys := InOrder(hashes.Keys);
    forall i | 0 <= i < |keys| ensures NulFree(EntriesOf(files, sha)[i].0) && NulFree(EntriesOf(files, sha)[i].1) {
      assert keys[i] in hashes.Keys;
    }
  }

  lemma SameRows(a: map<string, string>, b: map<string, string>)
    requires RowsOf(a) == RowsOf(b)
    ensures a == b
  {
    InOrderMembers(a.Keys);
    InOrderMembers(b.Keys);
    SameRowsOver(a, b, InOrder(a.Keys), InOrder(b.Keys));
  }

  lemma SameRowsOver(a: map<string, string>, b: map<string, string>, ka: seq<string>, kb: seq<string>)
    requires (forall k :: k in ka <==> k in a) && (forall k :: k in kb <==> k in b)
    requires Rows(a, ka) == Rows(b, kb)
    ensures a == b
  {
    var ra, rb := Rows(a, ka), Rows(b, kb);
    assert |ka| == |ra| == |kb|;
    forall i | 0 <= i < |ka| ensures ka[i] == kb[i] && a[ka[i]] == b[kb[i]] {
      assert ka[i] in a && kb[i] in b;
      assert ra[i] == (ka[i], a[ka[i]]) && rb[i] == (kb[i], b[kb[i]]);
    }
    assert ka == kb;
    forall k | k in a ensures k in b && a[k] == b[k] {
      var i :| 0 <= i < |ka| && ka[i] == k;
    }
    forall k | k in b ensures k in a {
      assert k in kb;
    }
  }

  lemma SameHashes(a: Files, b: Files, sha: Hash)
    requires NoCollision(sha, a, b) && HashesOf(a, sha) == HashesOf(b, sha)
    ensures Covered(a) == Covered(b)
  {
    HashesCover(a, sha);
    HashesCover(b, sha);
    forall p | p in Covered(a) ensures p in Covered(b) && Covered(a)[p] == Covered(b)[p] {
      assert p in HashesOf(a, sha) && p in HashesOf(b, sha);
    }
    forall p | p in Covered(b) ensures p in Covered(a) {
      assert p in HashesOf(b, sha) && p in HashesOf(a, sha);
    }
  }

  lemma HashesCover(files: Files, sha: Hash)
    ensures forall p :: p in HashesOf(files, sha) <==> p in Covered(files)
    ensures forall p :: p in Covered(files) ==> HashesOf(files, sha)[p] == sha(Covered(files)[p])
  {
  }

  datatype Master = Missing | Malformed | Recorded(hash: string)

  datatype Verdict = Matches | Differs | Unreadable

  /** The verdict on a directory and a master file. */
  ghost function Verified(access: Access, files: Files, master: Master, sha: Hash): Verdict {
    match master
    case Missing => Matches
    case Malformed => Unreadable
    case Recorded(hash) => if hash == "" || hash == CurrentHash(access, files, sha) then Matches else Differs
  }

  /** What becomes of writing the master file. */
  datatype Write = Done | Refused | Torn

  /** The cache directory and the master file beside or inside it. A master file that is not there, or whose
      presence cannot be told, is missing. */
  class CacheDir {
    const sha: Hash
    const masterPath: string
    const masterInside: bool
    var access: Access
    var files: Files
    var master: Master

    constructor (sha: Hash, masterPath: string, masterInside: bool, files: Files)
      ensures this.sha == sha && this.masterPath == masterPath && this.masterInside == masterInside
      ensures Valid() && access == Listable && this.files == files && master == Missing
    {
      this.sha, this.masterPath, this.masterInside := sha, masterPath, masterInside;
      this.files, access, master := files, Listable, Missing;
    }

    /** An inner master file goes with its directory. */
    ghost predicate Valid()
      reads this
    {
      masterInside && access == Gone ==> master == Missing
    }

    /** What a walk of the directory meets: a master file inside it is listed too. */
    function Listing(): Files
      reads this
    {
      if masterInside && master.Recorded? then files[masterPath := Some(master.hash)] else files
    }

    method Update(w: Write) returns (ok: bool)
      requires Valid()
      modifies this`master
      ensures Valid()
      ensures ok == (access == Gone || w == Done)
      ensures master == if access == Gone || w == Refused then old(master)
                        else if w == Torn then Malformed
                        else Recorded(CurrentHash(access, old(Listing()), sha))
    {
      if access == Gone {
        return true;
      }
      var hash := Compute(access, Listing(), sha);
      match w
      case Done =>
        master := Recorded(hash);
        return true;
      case Refused =>
        return false;
      case Torn =>
        master := Malformed;
        return false;
    }

    method Verify() returns (v: Verdict)
      ensures v == Verified(access, Listing(), master, sha)
      ensures v == Unreadable <==> master.Malformed?
      ensures v == Matches <==>
              || master.Missing?
              || (master.Recorded? && master.hash == "")
              || (master.Recorded? && master.hash == if access == Listable then Digest(Listing(), sha) else "")
    {
      match master
      case Missing => return Matches;
      case Malformed => return Unreadable;
      case Recorded(stored) =>
        if stored == "" {
          return Matches;
        }
        var current := Compute(access, Listing(), sha);
        return if stored == current then Matches else Differs;
    }

    /** What others do to the directory, and whether they leave the master file alone. */
    method Change(access: Access, files: Files, keepsMaster: bool)
      modifies this`access, this`files, this`master
      ensures Valid() && this.access == access && this.files == files
      ensures master == if keepsMaster && !(masterInside && access == Gone) then old(master) else Missing
    {
      this.access, this.files := access, files;
      if !keepsMaster || (masterInside && access == Gone) {
        master := Missing;
      }
    }
  }

  /** An update, any changes to the directory and the master file's removal or not, and a verification. The
      verdict is positive exactly if the master file is missing by then, as it is when the directory it lies
      in was deleted; or the update met a directory it could not list, and recorded the empty hash; or the
      directory can be listed and holds the same readable json files with the same contents, although the
      update wrote its master file among them. */
  method VerifyAfterUpdate(cache: CacheDir, access: Access, files: Files, keepsMaster: bool) returns (v: Verdict)
    requires cache.Valid() && cache.access != Gone && (cache.masterInside ==> !IsJson(cache.masterPath))
    requires Plain(cache.sha, cache.files) && Plain(cache.sha, files) && NoCollision(cache.sha, cache.files, files)
    modifies cache
    ensures v == Matches || v == Differs
    ensures v == Matches <==>
            || !keepsMaster || (cache.masterInside && access == Gone)
            || old(cache.access) == Unlistable
            || (access == Listable && Covered(files) == Covered(old(cache.files)))
  {
    ghost var before := cache.Listing();
    ListingIsCovered(cache);
    var ok := cache.Update(Done);
    cache.Change(access, files, keepsMaster);
    ListingIsCovered(cache);
    SameCoverSameDigest(before, old(cache.files), cache.sha);
    SameCoverSameDigest(cache.Listing(), files, cache.sha);
    VerifiesExactly(old(cache.access), old(cache.files), access, files, cache.sha);
    v := cache.Verify();
  }

  /** Changing one json file of a listed directory after an update is noticed. */
  method ChangedFileDiffers(cache: CacheDir, front: string, stem: string, content: string) returns (v: Verdict)
    requires cache.Valid() && cache.access == Listable && (cache.masterInside ==> !IsJson(cache.masterPath))
    requires IsFront(front) && stem != "" && '/' !in stem
    requires var path := front + (stem + ".json");
             && path in cache.files && cache.files[path].Some? && cache.files[path].value != content
             && Plain(cache.sha, cache.files)
             && NoCollision(cache.sha, cache.files, cache.files[path := Some(content)])
    modifies cache
    ensures v == Differs
  {
    var path := front + (stem + ".json");
    assert IsSpelledJson(path, front, stem);
    IsJsonExactly(path);
    var files := cache.files[path := Some(content)];
    assert Covered(cache.files)[path] != Covered(files)[path];
    v := VerifyAfterUpdate(cache, Listable, files, true);
  }

  /** An input on which a loss goes unnoticed: the whole directory is deleted, the master file in it too. */
  method DeletedDirectoryVerifies(sha: Hash) returns (v: Verdict)
    ensures v == Matches
  {
    var files: Files := map["target/taskit/cache/a.json" := Some("{}")];
    var cache := new CacheDir(sha, "target/taskit/cache/master-hash", true, files);
    var ok := cache.Update(Done);
    cache.Change(Gone, map[], true);
    v := cache.Verify();
  }

  lemma ListingIsCovered(cache: CacheDir)
    requires cache.masterInside ==> !IsJson(cache.masterPath)
    ensures Covered(cache.Listing()) == Covered(cache.files)
  {
    if cache.masterInside && cache.master.Recorded? {
      MasterFileIsNotCovered(cache.files, cache.masterPath, cache.master.hash);
    }
  }

  lemma SameCoverSameDigest(a: Files, b: Files, sha: Hash)
    requires Covered(a) == Covered(b)
    ensures Digest(a, sha) == Digest(b, sha)
  {
    assert HashesOf(a, sha) == HashesOf(b, sha);
  }

  /** A master file whose name is not a json name never enters the hash, even from inside the directory. */
  lemma MasterFileIsNotCovered(files: Files, masterPath: string, hash: string)
    requires !IsJson(masterPath)
    ensures Covered(files[masterPath := Some(hash)]) == Covered(files)
  {
  }

  /** The master file's own name, below any directory. */
  lemma MasterNameIsNotJson(dir: string)
    ensures !IsJson(dir + "/master-hash")
  {
    assert dir + "/master-hash" == dir + "/" + "master-hash";
    NameBelow(dir, "master-hash");
    assert "master-hash"[|"master-hash"| - |SUFFIX|..][0] == '-';
  }

  lemma {:induction false} NameBelow(dir: string, name: string)
    requires '/' !in name
    ensures BaseName(dir + "/" + name) == name
  {
    NameBehind(dir + "/", name);
  }

  /** Nothing, or a directory with its slash. */
  predicate IsFront(front: string) {
    front == "" || front[|front| - 1] == '/'
  }

  lemma {:induction false} NameBehind(front: string, name: string)
    requires '/' !in name && IsFront(front)
    ensures BaseName(front + name) == name
  {
    if name != "" {
      var path := front + name;
      NameBehind(front, name[..|name| - 1]);
      assert path[..|path| - 1] == front + name[..|name| - 1];
    } else {
      assert front + name == front;
    }
  }

  lemma {:induction false} NameSplits(path: string) returns (front: string)
    ensures path == front + BaseName(path) && IsFront(front) && '/' !in BaseName(path)
  {
    if path == "" || path[|path| - 1] == '/' {
      front := path;
    } else {
      front := NameSplits(path[..|path| - 1]);
    }
  }

  /** `path` is a directory or nothing, a stem, and the extension. */
  ghost predicate IsSpelledJson(path: string, front: string, stem: string) {
    path == front + (stem + ".json") && IsFront(front) && stem != "" && '/' !in stem
  }

  lemma IsJsonExactly(path: string)
    ensures IsJson(path) <==> exists front, stem :: IsSpelledJson(path, front, stem)
  {
    if front, stem :| IsSpelledJson(path, front, stem) {
      var name := stem + ".json";
      NameBehind(front, name);
      assert name[|name| - |SUFFIX|..] == ".json";
    }
    if IsJson(path) {
      var front := NameSplits(path);
      var name := BaseName(path);
      var stem := name[..|name| - |SUFFIX|];
      assert name == stem + ".json";
      assert IsSpelledJson(path, front, stem);
    }
  }

  /** A recorded hash verifies exactly if it was taken of a directory that could not be listed, or the
      directory can be listed and its readable json files and their contents are what they were. */
  lemma VerifiesExactly(taken: Access, before: Files, now: Access, after: Files, sha: Hash)
    requires Plain(sha, before) && Plain(sha, after) && NoCollision(sha, before, after)
    ensures Verified(now, after, Recorded(CurrentHash(taken, before, sha)), sha) == Matches <==>
            taken != Listable || (now == Listable && Covered(after) == Covered(before))
  {
    SameDigestExactly(before, after, sha);
  }
}
