/**
 The file cache: one in-memory list of entries for each path, and the joined,
 optionally encrypted text of it on disk.
 */
module FileCache {
  import opened Prelude

  /** `encrypt` takes a fresh initialisation vector; `decrypt` throws on text of another shape. */
  datatype Cipher = Cipher(encrypt: (string, nat) -> string, decrypt: string -> Option<string>)

  /** Decryption undoes encryption, and no encrypted text is empty. */
  ghost predicate Faithful(c: Cipher) {
    forall text, iv :: c.decrypt(c.encrypt(text, iv)) == Some(text) && c.encrypt(text, iv) != ""
  }

  // -- Text of a list and back ------------------------------------------

  function Join(lines: seq<string>): string {
    if lines == [] then ""
    else if |lines| == 1 then lines[0]
    else lines[0] + "\n" + Join(lines[1..])
  }

  /** One more entry is one more line. */
  lemma {:induction false} JoinSnoc(lines: seq<string>, line: string)
    ensures Join(lines + [line]) == if lines == [] then line else Join(lines) + "\n" + line
  {
    if |lines| == 1 {
      assert lines + [line] == [lines[0], line] && (lines + [line])[1..] == [line];
    } else if lines != [] {
      JoinSnoc(lines[1..], line);
      assert (lines + [line])[1..] == lines[1..] + [line];
      assert lines[0] + "\n" + (Join(lines[1..]) + "\n" + line) == Join(lines) + "\n" + line;
    } else {
      assert lines + [line] == [line];
    }
  }

  /** `split("\n")`: never empty. */
  function Split(text: string): (r: seq<string>)
    ensures r != []
  {
    if text == "" then [""]
    else
      var rest := Split(text[1..]);
      if text[0] == '\n' then [""] + rest
      else [[text[0]] + rest[0]] + rest[1..]
  }

  /** What `read` makes of the decoded text. */
  function Lines(text: string): seq<string> {
    if text != "" then Split(text) else []
  }

  predicate NewlineFree(lines: seq<string>) {
    forall l :: l in lines ==> '\n' !in l
  }

  lemma {:induction false} SplitLine(line: string, rest: string)
    requires '\n' !in line
    ensures Split(line) == [line]
    ensures Split(line + "\n" + rest) == [line] + Split(rest)
  {
    if line == "" {
      assert line + "\n" + rest == "\n" + rest && ("\n" + rest)[1..] == rest;
    } else {
      SplitLine(line[1..], rest);
      assert (line + "\n" + rest)[1..] == line[1..] + "\n" + rest;
      assert [line[0]] + line[1..] == line;
    }
  }

  lemma {:induction false} SplitNewlineFree(text: string)
    ensures NewlineFree(Split(text))
  {
    if text != "" {
      SplitNewlineFree(text[1..]);
      var rest := Split(text[1..]);
      assert rest[0] in rest;
      forall l | l in Split(text) ensures '\n' !in l {
        assert l in rest || l == "" || l == [text[0]] + rest[0];
      }
    }
  }

  lemma {:induction false} SplitJoin(lines: seq<string>)
    requires lines != [] && NewlineFree(lines)
    ensures Split(Join(lines)) == lines
  {
    assert lines[0] in lines;
    SplitLine(lines[0], Join(lines[1..]));
    if |lines| > 1 {
      assert NewlineFree(lines[1..]);
      SplitJoin(lines[1..]);
    } else {
      assert lines == [lines[0]];
    }
  }

  lemma JoinEmpty(lines: seq<string>)
    ensures Join(lines) == "" <==> lines == [] || lines == [""]
  {
    if |lines| == 1 {
      assert lines == [lines[0]];
    }
  }

  /** A list survives the trip through the file exactly when no entry has a newline and it is not one empty entry. */
  lemma LinesOfJoin(lines: seq<string>)
    ensures Lines(Join(lines)) == lines <==> NewlineFree(lines) && lines != [""]
  {
    JoinEmpty(lines);
    if lines != [] && NewlineFree(lines) && lines != [""] {
      SplitJoin(lines);
    }
    if Lines(Join(lines)) == lines && lines != [] {
      SplitNewlineFree(Join(lines));
    }
  }

  // -- Disk and cache -----------------------------------------------------

  class Disk {
    var files: map<string, string>

    constructor ()
      ensures files == map[]
    {
      files := map[];
    }
  }

  /** A JavaScript array that the cache and its callers share. */
  class Entries {
    var items: seq<string>

    constructor (items: seq<string>)
      ensures this.items == items
    {
      this.items := items;
    }
  }

  function Encode(c: Cipher, encode: bool, text: string, iv: nat): string {
    if encode then c.encrypt(text, iv) else text
  }

  /** `read`'s decoding: an absent or empty file is not decrypted. */
  function Decode(c: Cipher, encoded: bool, contents: string): Option<string> {
    if encoded && contents != "" then c.decrypt(contents) else Some(contents)
  }

  lemma DecodesWhatWasEncoded(c: Cipher, encode: bool, text: string, iv: nat)
    requires Faithful(c)
    ensures Decode(c, encode, Encode(c, encode, text, iv)) == Some(text)
  {
  }

  lemma EncodeIs(c: Cipher, encode: bool, text: string, iv: nat)
    ensures Encode(c, encode, text, iv) == if encode then c.encrypt(text, iv) else text
  {
  }

  function Contents(files: map<string, string>, path: string): string {
    if path in files then files[path] else ""
  }

  /** How `writeFile` ends: a rejected write may have left another text in the file. */
  datatype Write = Done | Rejected(remains: Option<string>)

  function AfterWrite(files: map<string, string>, path: string, text: string, write: Write)
    : (after: map<string, string>)
    ensures forall p :: p in files && p != path ==> p in after && after[p] == files[p]
    ensures write.Done? ==> path in after && after[path] == text
  {
    match write
    case Done => files[path := text]
    case Rejected(None) => files
    case Rejected(Some(remains)) => files[path := remains]
  }

  class FileSystem {
    const cipher: Cipher
    const disk: Disk
    ghost const encodes: string -> bool   // each path is used with one setting
    var fsMap: map<string, Entries>
    ghost var appended: set<string>       // the paths whose last `append` wrote the file

    ghost predicate Valid()
      reads this, disk, fsMap.Values
    {
      && Faithful(cipher)
      && (forall p, q :: p in fsMap && q in fsMap && p != q ==> fsMap[p] != fsMap[q])
      && (forall p :: p in appended ==>
            && p in fsMap && p in disk.files
            && Decode(cipher, encodes(p), disk.files[p]) == Some(Join(fsMap[p].items)))
    }

    /** The list the cache holds for a path. */
    ghost function Cached(path: string): seq<string>
      requires path in fsMap
      reads this, fsMap.Values
    {
      fsMap[path].items
    }

    constructor (cipher: Cipher, disk: Disk, ghost encodes: string -> bool)
      requires Faithful(cipher)
      ensures Valid() && fsMap == map[] && appended == {}
      ensures this.cipher == cipher && this.disk == disk && this.encodes == encodes
    {
      this.cipher, this.disk, this.encodes := cipher, disk, encodes;
      fsMap, appended := map[], {};
    }

    /** The cached list, or the file's; only a file that does not decrypt makes it throw. */
    method Read(path: string, encoded: bool) returns (r: Option<Entries>)
      requires Valid() && encoded == encodes(path)
      modifies this
      ensures Valid() && appended == old(appended)
      ensures old(path in fsMap) ==> r == Some(old(fsMap)[path]) && fsMap == old(fsMap)
      ensures var decoded := Decode(cipher, encoded, Contents(disk.files, path));
              old(path !in fsMap) ==>
                if decoded.None? then r.None? && fsMap == old(fsMap)
                else
                  && r.Some? && fresh(r.value) && fsMap == old(fsMap)[path := r.value]
                  && r.value.items == Lines(decoded.value)
      ensures var text := if path in disk.files then disk.files[path] else "";
              old(path !in fsMap) && r.Some? ==>
                if encoded && text != ""
                then cipher.decrypt(text).Some? && r.value.items == Lines(cipher.decrypt(text).value)
                else r.value.items == Lines(text)
    {
      if path in fsMap {
        return Some(fsMap[path]);
      }
      var contents := if path in disk.files then disk.files[path] else "";
      var decoded := if encoded && |contents| > 0 then cipher.decrypt(contents) else Some(contents);
      if decoded.None? {
        return None;
      }
      var entries := new Entries(Lines(decoded.value));
      fsMap := fsMap[path := entries];
      r := Some(entries);
    }

    /** Whether `read` of the path succeeds. */
    ghost predicate Readable(path: string, encoded: bool)
      reads this, disk
    {
      path in fsMap || Decode(cipher, encoded, Contents(disk.files, path)).Some?
    }

    /** What `read` of the path holds. */
    ghost function Listed(path: string, encoded: bool): seq<string>
      requires Readable(path, encoded)
      reads this, disk, fsMap.Values
    {
      if path in fsMap then Cached(path) else Lines(Decode(cipher, encoded, Contents(disk.files, path)).value)
    }

    /**
     The entry is pushed onto the cached array itself, and the whole list is
     written out. A write that is rejected leaves the entry in the cache.
     */
    method Append(path: string, newContent: string, shouldEncode: bool, iv: nat, write: Write) returns (ok: bool)
      requires Valid() && shouldEncode == encodes(path)
      modifies this, disk, fsMap.Values
      ensures Valid()
      ensures ok <==> old(Readable(path, shouldEncode)) && write.Done?
      ensures old(Readable(path, shouldEncode)) ==>
                && path in fsMap && Cached(path) == old(Listed(path, shouldEncode)) + [newContent]
                && disk.files
                   == AfterWrite(old(disk.files), path, Encode(cipher, shouldEncode, Join(Cached(path)), iv), write)
                && appended == if write.Done? then old(appended) + {path} else old(appended) - {path}
      ensures old(Readable(path, shouldEncode)) && write.Done? ==>
                path in disk.files &&
                disk.files[path] == if shouldEncode then cipher.encrypt(Join(Cached(path)), iv) else Join(Cached(path))
      ensures !old(Readable(path, shouldEncode)) ==>
                fsMap == old(fsMap) && disk.files == old(disk.files) && appended == old(appended)
      ensures forall p :: p in old(fsMap) && p != path ==> p in fsMap && Cached(p) == old(fsMap[p].items)
      ensures fresh(fsMap.Values - old(fsMap.Values))
    {
      hide Decode, Encode, Join, Lines, Faithful, AfterWrite;
      var read := Read(path, shouldEncode);
      if read.None? {
        return false;
      }
      Push(path, read.value, newContent);
      WriteOut(path, shouldEncode, iv, write);
      ok := write.Done?;
    }

    /** The push alone: until the write is done the file does not hold the list. */
    method Push(path: string, contents: Entries, newContent: string)
      requires Valid() && path in fsMap && fsMap[path] == contents
      modifies `fsMap, `appended, contents
      ensures Valid() && fsMap == old(fsMap) && appended == old(appended) - {path}
      ensures contents.items == old(contents.items) + [newContent]
    {
      hide Decode, Join;
      contents.items := contents.items + [newContent];
      fsMap := fsMap[path := contents];
      appended := appended - {path};
    }

    method WriteOut(path: string, shouldEncode: bool, iv: nat, write: Write)
      requires Valid() && shouldEncode == encodes(path) && path in fsMap && path !in appended
      modifies `appended, disk
      ensures Valid() && appended == if write.Done? then old(appended) + {path} else old(appended)
      ensures disk.files
              == AfterWrite(old(disk.files), path, Encode(cipher, shouldEncode, Join(fsMap[path].items), iv), write)
      ensures var text := Join(fsMap[path].items);
              write.Done? ==>
                path in disk.files && disk.files[path] == if shouldEncode then cipher.encrypt(text, iv) else text
    {
      EncodeIs(cipher, shouldEncode, Join(fsMap[path].items), iv);
      hide Decode, Encode, Join, Faithful, AfterWrite;
      var text := Join(fsMap[path].items);
      DecodesWhatWasEncoded(cipher, shouldEncode, text, iv);
      disk.files := AfterWrite(disk.files, path, Encode(cipher, shouldEncode, text, iv), write);
      if write.Done? {
        appended := appended + {path};
      }
    }
  }

  /**
   After a rejected write the file is behind the cache, but nothing is lost
   before a restart: the next `append` that succeeds writes both entries.
   */
  method NextAppendRepairs(
    fs: FileSystem, path: string, encoded: bool, first: string, second: string, remains: Option<string>,
    iv: nat, iv': nat)
    requires fs.Valid() && encoded == fs.encodes(path) && fs.Readable(path, encoded)
    modifies fs, fs.disk, fs.fsMap.Values
    ensures fs.Valid() && path in fs.appended
    ensures fs.Cached(path) == old(fs.Listed(path, encoded)) + [first, second]
    ensures Decode(fs.cipher, encoded, fs.disk.files[path]) == Some(Join(fs.Cached(path)))
  {
    var failed := fs.Append(path, first, encoded, iv, Rejected(remains));
    var ok := fs.Append(path, second, encoded, iv', Done);
  }

  /**
   A restart: a new file system over the same disk reads back a path last
   written by `append` as the same list, exactly when the list survives the
   trip through the file.
   */
  method ReadAfterRestart(before: FileSystem, path: string, encoded: bool)
    returns (after: FileSystem, r: Option<Entries>)
    requires before.Valid() && path in before.appended && encoded == before.encodes(path)
    ensures fresh(after) && after.Valid() && r.Some?
    ensures r.value.items == before.Cached(path) <==>
            NewlineFree(before.Cached(path)) && before.Cached(path) != [""]
  {
    after := new FileSystem(before.cipher, before.disk, before.encodes);
    LinesOfJoin(before.Cached(path));
    r := after.Read(path, encoded);
  }
}
