/**
 The encrypted backup of internal/backup: its 58-byte header, sealing, and Create/Restore over file trees.

 The AEAD, the key derivation and the tar+gzip codec are parameters with their laws as predicates.  Each
 file-system call of `Restore` may fail; `Faults` says which do.
 */
module Backup {
  import opened Prelude
  import Text

  type Byte = x: int | 0 <= x < 256
  type Bytes = seq<Byte>
  type U32 = x: int | 0 <= x < 0x1_0000_0000

  // ---- the header ----

  const MAGIC: Bytes := [0x52, 0x44, 0x44, 0x41, 0x42, 0x41, 0x4B, 0x31]  // "RDDABAK1"
  const FORMAT_VERSION: Byte := 1
  const SALT_LEN := 16
  const NONCE_LEN := 24
  const HEADER_LEN := 58

  datatype RawHeader = RawHeader(time: U32, memory: U32, threads: Byte, salt: Bytes, nonce: Bytes)
  type Header = h: RawHeader | |h.salt| == SALT_LEN && |h.nonce| == NONCE_LEN
    witness RawHeader(0, 0, 0, seq(SALT_LEN, i => 0), seq(NONCE_LEN, i => 0))

  datatype Error =
    | TooShort | BadMagic | BadVersion(v: Byte)
    | EmptyPassphrase | NoRandomness | CannotOpen
    | ReadFailed(name: string)
    | AlreadyExists | StatFailed | BadGzip | TempFailed | BadStream
    | UnsafeEntry(name: string) | UnexpectedEntry(name: string) | TooLarge(name: string)
    | WriteFailed | MkdirFailed | ConfigNotMoved | ClientsNotMoved

  function BigEndian32(x: U32): Bytes {
    [x / 0x100_0000, x / 0x1_0000 % 0x100, x / 0x100 % 0x100, x % 0x100]
  }

  function FromBigEndian32(b: Bytes): U32
    requires |b| == 4
  {
    b[0] as int * 0x100_0000 + b[1] as int * 0x1_0000 + b[2] as int * 0x100 + b[3]
  }

  function Marshal(h: Header): (b: Bytes)
    ensures |b| == HEADER_LEN
  {
    MAGIC + [FORMAT_VERSION] + BigEndian32(h.time) + BigEndian32(h.memory) + [h.threads] + h.salt + h.nonce
  }

  function ParseHeader(b: Bytes): Result<Header, Error> {
    if |b| < HEADER_LEN then Err(TooShort)
    else if b[..8] != MAGIC then Err(BadMagic)
    else if b[8] != FORMAT_VERSION then Err(BadVersion(b[8]))
    else Ok(RawHeader(FromBigEndian32(b[9..13]), FromBigEndian32(b[13..17]), b[17], b[18..34], b[34..58]))
  }

  lemma BigEndianRoundTrip(x: U32)
    ensures FromBigEndian32(BigEndian32(x)) == x
  {
    assert x / 0x1_0000 == x / 0x100_0000 * 0x100 + x / 0x1_0000 % 0x100;
    assert x / 0x100 == x / 0x1_0000 * 0x100 + x / 0x100 % 0x100;
  }

  lemma FourBytesRoundTrip(b: Bytes)
    requires |b| == 4
    ensures BigEndian32(FromBigEndian32(b)) == b
  {
    var n := FromBigEndian32(b);
    assert n / 0x100 == b[0] as int * 0x1_0000 + b[1] as int * 0x100 + b[2];
    assert n / 0x1_0000 == b[0] as int * 0x100 + b[1];
    assert n / 0x100_0000 == b[0];
  }

  /** Reading back what was written, whatever follows it. */
  lemma ParseInvertsMarshal(h: Header, rest: Bytes)
    ensures ParseHeader(Marshal(h) + rest) == Ok(h)
  {
    var b := Marshal(h) + rest;
    BigEndianRoundTrip(h.time);
    BigEndianRoundTrip(h.memory);
    assert b[..8] == MAGIC;
    assert b[9..13] == BigEndian32(h.time) && b[13..17] == BigEndian32(h.memory);
    assert b[18..34] == h.salt && b[34..58] == h.nonce;
  }

  /** An accepted header is byte for byte what would be written for it. */
  lemma MarshalInvertsParse(b: Bytes)
    requires ParseHeader(b).Ok?
    ensures Marshal(ParseHeader(b).value) == b[..HEADER_LEN]
  {
    FourBytesRoundTrip(b[9..13]);
    FourBytesRoundTrip(b[13..17]);
    assert b[..58] == b[..8] + [b[8]] + b[9..13] + b[13..17] + [b[17]] + b[18..34] + b[34..58];
  }

  ghost function NumberAt(b: Bytes, i: nat): U32
    requires i + 4 <= |b|
  {
    ((b[i] as int * 256 + b[i + 1]) * 256 + b[i + 2]) * 256 + b[i + 3]
  }

  /** The fields of a header by position; integers are big-endian. */
  ghost function HeaderAt(b: Bytes): Header
    requires |b| >= 58
  {
    RawHeader(NumberAt(b, 9), NumberAt(b, 13), b[17], b[18..34], b[34..58])
  }

  /** 58 bytes or more that start with "RDDABAK1" and the format version 1. */
  ghost predicate HasHeader(b: Bytes) {
    |b| >= 58 && b[..9] == [0x52, 0x44, 0x44, 0x41, 0x42, 0x41, 0x4B, 0x31, 1]
  }

  lemma ParseHeaderIsExact(b: Bytes)
    ensures ParseHeader(b).Ok? <==> HasHeader(b)
    ensures HasHeader(b) ==> ParseHeader(b) == Ok(HeaderAt(b))
  {
    if |b| >= 58 {
      assert b[..9] == b[..8] + [b[8]];
      assert ParseHeader(b).Ok? ==> b[..9] == MAGIC + [1];
      assert HasHeader(b) ==> b[..8] == b[..9][..8] == MAGIC && b[8] == b[..9][8];
      BytesAt(b, 9);
      BytesAt(b, 13);
    }
  }

  lemma BytesAt(b: Bytes, i: nat)
    requires i + 4 <= |b|
    ensures FromBigEndian32(b[i..i + 4]) == NumberAt(b, i)
  {
    var c := b[i..i + 4];
    assert c[0] == b[i] && c[1] == b[i + 1] && c[2] == b[i + 2] && c[3] == b[i + 3];
  }

  // ---- sealing ----

  /** Key derivation, and an AEAD: (key, nonce, text, associated data). */
  datatype Crypto = Crypto(
    kdf: (string, RawHeader) -> Bytes,
    seal: (Bytes, Bytes, Bytes, Bytes) -> Bytes,
    open: (Bytes, Bytes, Bytes, Bytes) -> Option<Bytes>)

  ghost predicate OpensWhatItSeals(c: Crypto) {
    forall key, nonce, text, ad :: c.open(key, nonce, c.seal(key, nonce, text, ad), ad) == Some(text)
  }

  const DEF_TIME: U32 := 2
  const DEF_MEMORY: U32 := 65536
  const DEF_THREADS: Byte := 4

  /** `random` is the salt and nonce drawn, None when the random source fails. */
  function Encrypt(c: Crypto, passphrase: string, plaintext: Bytes, random: Option<(Bytes, Bytes)>): Result<Bytes, Error>
    requires random.Some? ==> |random.value.0| == SALT_LEN && |random.value.1| == NONCE_LEN
  {
    if passphrase == "" then Err(EmptyPassphrase)
    else if random.None? then Err(NoRandomness)
    else
      var h := RawHeader(DEF_TIME, DEF_MEMORY, DEF_THREADS, random.value.0, random.value.1);
      Ok(Marshal(h) + c.seal(c.kdf(passphrase, h), h.nonce, plaintext, Marshal(h)))
  }

  function Decrypt(c: Crypto, passphrase: string, archive: Bytes): Result<Bytes, Error> {
    if passphrase == "" then Err(EmptyPassphrase)
    else match ParseHeader(archive)
      case Err(e) => Err(e)
      case Ok(h) =>
        match c.open(c.kdf(passphrase, h), h.nonce, archive[HEADER_LEN..], archive[..HEADER_LEN])
        case None => Err(CannotOpen)
        case Some(text) => Ok(text)
  }

  lemma DecryptInvertsEncrypt(c: Crypto, passphrase: string, plaintext: Bytes, random: Option<(Bytes, Bytes)>)
    requires OpensWhatItSeals(c)
    requires random.Some? ==> |random.value.0| == SALT_LEN && |random.value.1| == NONCE_LEN
    ensures match Encrypt(c, passphrase, plaintext, random)
            case Ok(archive) => Decrypt(c, passphrase, archive) == Ok(plaintext)
            case Err(e) => passphrase == "" || random.None?
  {
    if Encrypt(c, passphrase, plaintext, random).Ok? {
      var h := RawHeader(DEF_TIME, DEF_MEMORY, DEF_THREADS, random.value.0, random.value.1);
      var sealed := c.seal(c.kdf(passphrase, h), h.nonce, plaintext, Marshal(h));
      ParseInvertsMarshal(h, sealed);
      assert (Marshal(h) + sealed)[..HEADER_LEN] == Marshal(h) && (Marshal(h) + sealed)[HEADER_LEN..] == sealed;
    }
  }

  /** What the AEAD opens an archive to: key and nonce from its own header, which is authenticated with the rest. */
  ghost function Opened(c: Crypto, passphrase: string, archive: Bytes): Option<Bytes> {
    if passphrase == "" || !HasHeader(archive) then None
    else c.open(c.kdf(passphrase, HeaderAt(archive)), archive[34..58], archive[58..], archive[..58])
  }

  /** Decrypting succeeds only with what the AEAD opened; whatever it refuses is an error. */
  lemma DecryptIsExact(c: Crypto, passphrase: string, archive: Bytes)
    ensures match Opened(c, passphrase, archive)
            case Some(text) => Decrypt(c, passphrase, archive) == Ok(text)
            case None => Decrypt(c, passphrase, archive).Err?
    ensures passphrase != "" && HasHeader(archive) && Opened(c, passphrase, archive) == None ==>
              Decrypt(c, passphrase, archive) == Err(CannotOpen)
  {
    hide ParseHeader;
    ParseHeaderIsExact(archive);
  }

  /** A sealed archive says how it was sealed: fresh salt and nonce, two passes over 64 MiB in four lanes. */
  lemma EncryptSaysHow(c: Crypto, passphrase: string, plaintext: Bytes, random: (Bytes, Bytes))
    requires passphrase != "" && |random.0| == SALT_LEN && |random.1| == NONCE_LEN
    ensures var r := Encrypt(c, passphrase, plaintext, Some(random));
            r.Ok? && HasHeader(r.value) && HeaderAt(r.value) == RawHeader(2, 65536, 4, random.0, random.1)
  {
    hide Marshal;
    var h := RawHeader(DEF_TIME, DEF_MEMORY, DEF_THREADS, random.0, random.1);
    var sealed := c.seal(c.kdf(passphrase, h), h.nonce, plaintext, Marshal(h));
    ParseInvertsMarshal(h, sealed);
    ParseHeaderIsExact(Marshal(h) + sealed);
  }

  // ---- the archive ----

  datatype Entry = Entry(name: string, body: Bytes)

  /** What the tar reader yields: whole entries, then the end or a read error. */
  datatype Stream = Stream(entries: seq<Entry>, broken: bool)

  /** tar over gzip; `unpack` is None when the gzip header is bad. */
  datatype Codec = Codec(pack: seq<Entry> -> Bytes, unpack: Bytes -> Option<Stream>)

  ghost predicate UnpacksWhatItPacks(c: Codec) {
    forall entries :: c.unpack(c.pack(entries)) == Some(Stream(entries, false))
  }

  datatype DirNode = File(body: Bytes) | Unreadable | Directory
  datatype DirEntry = DirEntry(name: string, node: DirNode)

  /** The state directory to back up; `clients` is None when the directory does not exist. */
  datatype Source = Source(config: Option<Bytes>, clients: Option<seq<DirEntry>>, listable: bool)

  /** Names a directory listing can contain, each once. */
  ghost predicate RealListing(entries: seq<DirEntry>) {
    && (forall e :: e in entries ==> PlainName(e.name))
    && forall i, j :: 0 <= i < j < |entries| ==> entries[i].name != entries[j].name
  }

  predicate PlainName(name: string) { name != "" && '/' !in name && name != "." && name != ".." }

  function ClientEntries(entries: seq<DirEntry>): seq<Entry> {
    if entries == [] then []
    else ClientEntries(entries[..|entries| - 1])
         + (if entries[|entries| - 1].node.File? then [Entry("clients/" + entries[|entries| - 1].name, entries[|entries| - 1].node.body)] else [])
  }

  ghost predicate Readable(src: Source) {
    && src.config.Some? && src.listable
    && (src.clients.Some? ==> forall e :: e in src.clients.value ==> !e.node.Unreadable?)
  }

  ghost function ArchiveEntries(src: Source): seq<Entry>
    requires src.config.Some?
  {
    [Entry("config.yaml", src.config.value)] + (if src.clients.Some? then ClientEntries(src.clients.value) else [])
  }

  method Create(src: Source, passphrase: string, random: Option<(Bytes, Bytes)>, c: Crypto, codec: Codec)
    returns (r: Result<Bytes, Error>)
    requires random.Some? ==> |random.value.0| == SALT_LEN && |random.value.1| == NONCE_LEN
    ensures Readable(src) ==> r == Encrypt(c, passphrase, codec.pack(ArchiveEntries(src)), random)
    ensures !Readable(src) ==> r.Err? && r.error.ReadFailed?
  {
    if src.config.None? {
      return Err(ReadFailed("config.yaml"));
    }
    var tar := [Entry("config.yaml", src.config.value)];
    if !src.listable {
      return Err(ReadFailed("clients"));
    }
    var listing := if src.clients.Some? then src.clients.value else [];
    for n := 0 to |listing|
      invariant tar == [Entry("config.yaml", src.config.value)] + ClientEntries(listing[..n])
      invariant forall m :: 0 <= m < n ==> !listing[m].node.Unreadable?
    {
      assert listing[..n + 1][..n] == listing[..n];
      var e := listing[n];
      if e.node.Directory? {
        continue;
      }
      if e.node.Unreadable? {
        return Err(ReadFailed("clients/" + e.name));
      }
      tar := tar + [Entry("clients/" + e.name, e.node.body)];
    }
    assert listing[..|listing|] == listing;
    r := Encrypt(c, passphrase, codec.pack(tar), random);
  }

  // ---- restoring ----

  /** filepath.Clean on slash-separated components: drops empty ones and ".", resolves "..". */
  function CleanParts(parts: seq<string>, done: seq<string>, rooted: bool): seq<string> {
    if parts == [] then done
    else
      var p, rest := parts[0], parts[1..];
      if p == "" || p == "." then CleanParts(rest, done, rooted)
      else if p != ".." then CleanParts(rest, done + [p], rooted)
      else if done != [] && done[|done| - 1] != ".." then CleanParts(rest, done[..|done| - 1], rooted)
      else if rooted then CleanParts(rest, done, rooted)
      else CleanParts(rest, done + [p], rooted)
  }

  function Clean(path: string): string {
    var rooted := Text.HasPrefix(path, "/");
    var parts := CleanParts(Text.SplitOn(path, '/'), [], rooted);
    if rooted then "/" + (if parts == [] then "" else Text.Join(parts, '/'))
    else if parts == [] then "." else Text.Join(parts, '/')
  }

  const MAX_ENTRY := 8388608  // 8 MiB

  /** The temporary tree: one file and one flat directory. */
  datatype Tree = Tree(config: Option<Bytes>, clients: map<string, Bytes>)
  const EMPTY_TREE := Tree(None, map[])

  datatype Faults = Faults(
    stat: bool, temp: bool, write: string -> bool, mkdir: bool, renameConfig: bool,
    keeps: set<string>, renameClients: bool)  // keeps: client files that RemoveAll fails to remove

  /** One entry into the temporary tree; a name below a missing sub-directory cannot be written. */
  function Extract(tree: Tree, e: Entry, f: Faults): Result<Tree, Error> {
    var clean := Clean(e.name);
    if Text.HasPrefix(clean, "/") || Text.HasPrefix(clean, "../") || Text.Contains(clean, "/../") then Err(UnsafeEntry(e.name))
    else if clean != "config.yaml" && !Text.HasPrefix(clean, "clients/") then Err(UnexpectedEntry(e.name))
    else if |e.body| > MAX_ENTRY then Err(TooLarge(e.name))
    else if f.write(clean) then Err(WriteFailed)
    else if clean == "config.yaml" then Ok(tree.(config := Some(e.body)))
    else if '/' in clean[8..] then Err(WriteFailed)
    else Ok(tree.(clients := tree.clients[clean[8..] := e.body]))
  }

  function ExtractAll(tree: Tree, entries: seq<Entry>, f: Faults): Result<Tree, Error>
    decreases |entries|
  {
    if entries == [] then Ok(tree)
    else match Extract(tree, entries[0], f)
      case Err(e) => Err(e)
      case Ok(t) => ExtractAll(t, entries[1..], f)
  }

  datatype Dest = Dest(config: Option<Bytes>, clients: Option<map<string, Bytes>>)

  /** Everything before the first rename: it only reads the destination. */
  function Prepare(d: Dest, archive: Bytes, passphrase: string, force: bool, f: Faults, c: Crypto, codec: Codec): Result<Tree, Error> {
    if f.stat then Err(StatFailed)
    else if d.config.Some? && !force then Err(AlreadyExists)
    else match Decrypt(c, passphrase, archive)
      case Err(e) => Err(e)
      case Ok(plain) =>
        match codec.unpack(plain)
        case None => Err(BadGzip)
        case Some(stream) =>
          if f.temp then Err(TempFailed)
          else match ExtractAll(EMPTY_TREE, stream.entries, f)
            case Err(e) => Err(e)
            case Ok(tree) =>
              if stream.broken then Err(BadStream)
              else if f.mkdir then Err(MkdirFailed)
              else if tree.config.None? || f.renameConfig then Err(ConfigNotMoved)
              else Ok(tree)
  }

  function Left(was: Option<map<string, Bytes>>, keeps: set<string>): Option<map<string, Bytes>> {
    if was.None? then None
    else
      var left := map k | k in was.value && k in keeps :: was.value[k];
      if left == map[] then None else Some(left)
  }

  /** No other client files than before, and none of them changed. */
  ghost predicate PartOf(part: Option<map<string, Bytes>>, was: Option<map<string, Bytes>>) {
    part.Some? ==> was.Some? && forall k :: k in part.value ==> k in was.value && part.value[k] == was.value[k]
  }

  /** A state after the first rename: the whole new configuration, and either part of the old clients or all the new ones. */
  ghost predicate OnTheWay(s: Dest, was: Dest, tree: Tree) {
    s.config == tree.config && (PartOf(s.clients, was.clients) || s.clients == Some(tree.clients))
  }

  /** The destination after a restore, and its error. */
  function Restoring(d: Dest, archive: Bytes, passphrase: string, force: bool, f: Faults, c: Crypto, codec: Codec): (Dest, Option<Error>) {
    match Prepare(d, archive, passphrase, force, f, c, codec)
    case Err(e) => (d, Some(e))
    case Ok(tree) =>
      var left := Left(d.clients, f.keeps);
      if f.renameClients || left.Some? then (Dest(tree.config, left), Some(ClientsNotMoved))
      else (Dest(tree.config, Some(tree.clients)), None)
  }

  class StateDir {
    var config: Option<Bytes>
    var clients: Option<map<string, Bytes>>
    ghost var seen: set<Dest>  // every state there has been: a crash can leave any of them

    constructor (config: Option<Bytes>, clients: Option<map<string, Bytes>>)
      ensures Abs() == Dest(config, clients) && seen == {Abs()}
    {
      this.config, this.clients, seen := config, clients, {Dest(config, clients)};
    }

    function Abs(): Dest
      reads this
    {
      Dest(config, clients)
    }

    method Restore(archive: Bytes, passphrase: string, force: bool, f: Faults, c: Crypto, codec: Codec)
      returns (err: Option<Error>)
      modifies this
      ensures (Abs(), err) == Restoring(old(Abs()), archive, passphrase, force, f, c, codec)
      ensures var p := Prepare(old(Abs()), archive, passphrase, force, f, c, codec);
              forall s :: s in seen ==> s in old(seen) || (p.Ok? && OnTheWay(s, old(Abs()), p.value))
    {
      hide Extract, Decrypt;
      if f.stat {
        return Some(StatFailed);
      }
      if config.Some? && !force {
        return Some(AlreadyExists);
      }
      var plain := Decrypt(c, passphrase, archive);
      if plain.Err? {
        return Some(plain.error);
      }
      var stream := codec.unpack(plain.value);
      if stream.None? {
        return Some(BadGzip);
      }
      if f.temp {
        return Some(TempFailed);
      }
      var tree, entries := EMPTY_TREE, stream.value.entries;
      for n := 0 to |entries|
        invariant ExtractAll(EMPTY_TREE, entries, f) == ExtractAll(tree, entries[n..], f)
        invariant Abs() == old(Abs())
      {
        var t := Extract(tree, entries[n], f);
        if t.Err? {
          return Some(t.error);
        }
        tree := t.value;
      }
      if stream.value.broken {
        return Some(BadStream);
      }
      if f.mkdir {
        return Some(MkdirFailed);
      }
      if tree.config.None? || f.renameConfig {
        return Some(ConfigNotMoved);
      }
      config := tree.config;
      seen := seen + {Abs()};
      RemoveClients(f.keeps);
      if f.renameClients || clients.Some? {
        return Some(ClientsNotMoved);
      }
      clients := Some(tree.clients);
      seen := seen + {Abs()};
      return None;
    }

    /** Removes the client files in some order, all but those that cannot be removed, then their directory. */
    method RemoveClients(keeps: set<string>)
      modifies this`clients, this`seen
      ensures clients == Left(old(clients), keeps)
      ensures forall s :: s in seen ==> s in old(seen) || (s.config == config && PartOf(s.clients, old(clients)))
    {
      if clients.None? {
        return;
      }
      var todo := clients.value.Keys - keeps;
      while todo != {}
        invariant clients.Some? && PartOf(clients, old(clients))
        invariant todo <= clients.value.Keys && todo !! keeps
        invariant forall k :: k in old(clients).value && (k in keeps || k in todo) ==> k in clients.value
        invariant forall k :: k in clients.value ==> k in keeps || k in todo
        invariant forall s :: s in seen ==> s in old(seen) || (s.config == config && PartOf(s.clients, old(clients)))
        decreases todo
      {
        var k :| k in todo;
        todo := todo - {k};
        clients := Some(clients.value - {k});
        seen := seen + {Abs()};
      }
      assert clients.value == map k | k in old(clients).value && k in keeps :: old(clients).value[k];
      if clients.value == map[] {
        clients := None;
        seen := seen + {Abs()};
      }
    }
  }

  // ---- what an accepted entry names ----

  /** Components of a cleaned path: real names, and ".." only in an unbroken run at the front. */
  ghost predicate NormalParts(parts: seq<string>) {
    && (forall i :: 0 <= i < |parts| ==> parts[i] != "" && parts[i] != "." && '/' !in parts[i])
    && forall i :: 0 < i < |parts| && parts[i] == ".." ==> parts[i - 1] == ".."
  }

  lemma {:induction false} CleanPartsNormal(parts: seq<string>, done: seq<string>, rooted: bool)
    requires NormalParts(done) && forall p :: p in parts ==> '/' !in p
    ensures NormalParts(CleanParts(parts, done, rooted))
    decreases |parts|
  {
    if parts != [] {
      var p, rest := parts[0], parts[1..];
      if p == "" || p == "." { CleanPartsNormal(rest, done, rooted); }
      else if p != ".." { CleanPartsNormal(rest, done + [p], rooted); }
      else if done != [] && done[|done| - 1] != ".." { CleanPartsNormal(rest, done[..|done| - 1], rooted); }
      else if rooted { CleanPartsNormal(rest, done, rooted); }
      else { CleanPartsNormal(rest, done + [p], rooted); }
    }
  }

  lemma SecondIsReal(parts: seq<string>)
    requires NormalParts(parts) && |parts| > 1 && parts[0] != ".."
    ensures parts[1] != ".."
  {
  }

  /** Whatever an archive calls an entry, it lands on config.yaml or directly under clients/, with a real name. */
  lemma AcceptedEntryStaysInside(tree: Tree, e: Entry, f: Faults)
    requires Extract(tree, e, f).Ok?
    ensures Clean(e.name) == "config.yaml" || (exists n :: PlainName(n) && Clean(e.name) == "clients/" + n)
  {
    hide Text.SplitOn, Text.Join, CleanParts;
    var clean := Clean(e.name);
    if clean != "config.yaml" {
      var n := clean[8..];
      assert clean == "clients" + ['/'] + n && '/' !in n && '/' !in "clients";
      assert clean[0] == 'c';
      var parts := CleanParts(Text.SplitOn(e.name, '/'), [], false);
      Text.SplitPieces(e.name, '/');
      CleanPartsNormal(Text.SplitOn(e.name, '/'), [], false);
      assert parts != [] && clean == Text.Join(parts, '/') by { assert |"clients/"| == 8; }
      Text.SplitJoin(parts, '/');
      Text.SplitFirst("clients", '/', n);
      Text.SplitFirst(n, '/', "");
      assert parts == ["clients", n];
      assert parts[0] == "clients" && |"clients"| == 7 && |".."| == 2;
      assert parts[1] == n && parts[1] != "" && parts[1] != ".";
      SecondIsReal(parts);
      assert PlainName(n) && clean == "clients/" + n;
    }
  }

  /** The rules of Go's documentation of `filepath.Clean`: what may be struck out of a path, and what is clean. */
  lemma CleanFollowsRules(a: seq<string>, name: string, b: seq<string>, rooted: bool)
    requires name != "" && name != "." && name != ".."
    ensures CleanParts(a + [""] + b, [], rooted) == CleanParts(a + b, [], rooted)
    ensures CleanParts(a + ["."] + b, [], rooted) == CleanParts(a + b, [], rooted)
    ensures CleanParts(a + [name, ".."] + b, [], rooted) == CleanParts(a + b, [], rooted)
    ensures CleanParts([".."] + b, [], true) == CleanParts(b, [], true)
  {
    hide CleanParts;
    var done := CleanParts(a, [], rooted);
    CleanAppend(a, b, [], rooted);
    CleanAppend(a + [""], b, [], rooted);
    CleanAppend(a, [""], [], rooted);
    CleanAppend(a + ["."], b, [], rooted);
    CleanAppend(a, ["."], [], rooted);
    CleanAppend(a + [name, ".."], b, [], rooted);
    CleanAppend(a, [name, ".."], [], rooted);
    CleanAppend([".."], b, [], true);
    CleanOne("", done, rooted);
    CleanOne(".", done, rooted);
    CleanOne("..", [], true);
    CleanDown(name, done, rooted);
  }

  /** An absolute name is never accepted, nor one that climbs out of the archive. */
  lemma OutsideIsRefused(tree: Tree, name: string, body: Bytes, f: Faults)
    requires name != ""
    requires name[0] == '/' || [".."] <= CleanParts(Text.SplitOn(name, '/'), [], false)
    ensures Extract(tree, Entry(name, body), f).Err?
  {
    hide CleanParts, Text.SplitOn, Text.Join, Text.Contains;
    if name[0] == '/' {
      assert "/" <= name;
      assert Clean(name)[0] == '/';
    } else {
      assert !("/" <= name);
      var parts := CleanParts(Text.SplitOn(name, '/'), [], false);
      assert parts[0] == [".."][0] == "..";
      JoinStarts(parts);
      assert Clean(name)[0] == '.';
    }
    assert "config.yaml"[0] == 'c' && "clients/"[0] == 'c';
  }

  lemma JoinStarts(parts: seq<string>)
    requires parts != []
    ensures parts[0] <= Text.Join(parts, '/')
  {
  }

  lemma {:induction false} CleanAppend(a: seq<string>, b: seq<string>, done: seq<string>, rooted: bool)
    ensures CleanParts(a + b, done, rooted) == CleanParts(b, CleanParts(a, done, rooted), rooted)
    decreases |a|
  {
    if a == [] {
      assert a + b == b;
    } else {
      assert (a + b)[0] == a[0] && (a + b)[1..] == a[1..] + b;
      var p := a[0];
      if p == "" || p == "." { CleanAppend(a[1..], b, done, rooted); }
      else if p != ".." { CleanAppend(a[1..], b, done + [p], rooted); }
      else if done != [] && done[|done| - 1] != ".." { CleanAppend(a[1..], b, done[..|done| - 1], rooted); }
      else if rooted { CleanAppend(a[1..], b, done, rooted); }
      else { CleanAppend(a[1..], b, done + [p], rooted); }
    }
  }

  lemma CleanOne(p: string, done: seq<string>, rooted: bool)
    requires p == "" || p == "." || (p == ".." && done == [] && rooted)
    ensures CleanParts([p], done, rooted) == done
  {
    assert [p][1..] == [];
  }

  lemma CleanDown(name: string, done: seq<string>, rooted: bool)
    requires name != "" && name != "." && name != ".."
    ensures CleanParts([name, ".."], done, rooted) == done
  {
    assert [name, ".."][1..] == [".."] && [".."][1..] == [];
    assert CleanParts([name, ".."], done, rooted) == CleanParts([".."], done + [name], rooted);
    assert (done + [name])[..|done + [name]| - 1] == done;
  }

  /** A clean path stays as it is. */
  lemma {:induction false} CleanIsStable(parts: seq<string>, rooted: bool)
    requires NormalParts(parts) && (rooted ==> ".." !in parts)
    ensures CleanParts(parts, [], rooted) == parts
  {
    if parts != [] {
      var n := |parts| - 1;
      CleanIsStable(parts[..n], rooted);
      assert parts == parts[..n] + [parts[n]] && [parts[n]][1..] == [];
      CleanAppend(parts[..n], [parts[n]], [], rooted);
    }
  }

  // ---- when a restore succeeds ----

  /** The entry lands on config.yaml or on a client file, is at most 8 MiB long, and can be written. */
  ghost predicate Acceptable(e: Entry, f: Faults) {
    && (Clean(e.name) == "config.yaml" || exists n :: PlainName(n) && Clean(e.name) == "clients/" + n)
    && |e.body| <= 8 * 1024 * 1024
    && !f.write(Clean(e.name))
  }

  /** The body of the last entry that lands on `path`. */
  ghost function LastBody(entries: seq<Entry>, path: string): Option<Bytes> {
    if entries == [] then None
    else if Clean(entries[|entries| - 1].name) == path then Some(entries[|entries| - 1].body)
    else LastBody(entries[..|entries| - 1], path)
  }

  lemma ExtractIsExact(tree: Tree, e: Entry, f: Faults)
    ensures Extract(tree, e, f).Ok? <==> Acceptable(e, f)
    ensures Acceptable(e, f) && Clean(e.name) == "config.yaml" ==> Extract(tree, e, f) == Ok(tree.(config := Some(e.body)))
    ensures forall n :: Acceptable(e, f) && Clean(e.name) == "clients/" + n ==>
              Extract(tree, e, f) == Ok(tree.(clients := tree.clients[n := e.body]))
  {
    hide Clean, PlainName, Text.Contains;
    if Extract(tree, e, f).Ok? { AcceptedEntryStaysInside(tree, e, f); }
    CleanConfig();
    forall n | Clean(e.name) == "clients/" + n ensures Clean(e.name)[8..] == n && Clean(e.name) != "config.yaml" {
      assert Clean(e.name)[1] == 'l' && "config.yaml"[1] == 'o';
    }
    forall n | PlainName(n) && Clean(e.name) == "clients/" + n
      ensures !Text.HasPrefix(Clean(e.name), "/") && !Text.HasPrefix(Clean(e.name), "../") && !Text.Contains(Clean(e.name), "/../")
      ensures Text.HasPrefix(Clean(e.name), "clients/") && '/' !in n
    {
      CleanClient(n);
      PlainHasNoSlash(n);
    }
  }

  lemma PlainHasNoSlash(n: string)
    requires PlainName(n)
    ensures '/' !in n
  {
  }

  /** What an archive is extracted to: it must be acceptable throughout, and the last entry on a path wins. */
  lemma {:induction false} ExtractAllIsExact(entries: seq<Entry>, f: Faults)
    ensures var r := ExtractAll(EMPTY_TREE, entries, f);
            && (r.Ok? <==> forall e :: e in entries ==> Acceptable(e, f))
            && (r.Ok? ==>
                  && r.value.config == LastBody(entries, "config.yaml")
                  && (forall n :: n in r.value.clients <==> LastBody(entries, "clients/" + n).Some?)
                  && forall n :: n in r.value.clients ==> Some(r.value.clients[n]) == LastBody(entries, "clients/" + n))
  {
    hide Extract, Acceptable, Clean;
    if entries != [] {
      var front, e := entries[..|entries| - 1], entries[|entries| - 1];
      assert entries == front + [e];
      ExtractAllIsExact(front, f);
      ExtractAppend(EMPTY_TREE, front, [e], f);
      var before := ExtractAll(EMPTY_TREE, front, f);
      if before.Ok? {
        ExtractOne(before.value, e, f);
        ExtractIsExact(before.value, e, f);
        if Acceptable(e, f) {
          assert Clean(e.name) == "config.yaml" || exists n :: Clean(e.name) == "clients/" + n by { AcceptableLands(e, f); }
          LandsOnOne(Clean(e.name));
        }
      }
    }
  }

  lemma AcceptableLands(e: Entry, f: Faults)
    requires Acceptable(e, f)
    ensures Clean(e.name) == "config.yaml" || exists n :: Clean(e.name) == "clients/" + n
  {
  }

  lemma LandsOnOne(path: string)
    ensures forall n, m :: path == "clients/" + n && path == "clients/" + m ==> n == m
    ensures forall n :: path == "clients/" + n ==> path != "config.yaml"
  {
    forall n, m | path == "clients/" + n && path == "clients/" + m ensures n == m { assert path[8..] == n && path[8..] == m; }
    forall n | path == "clients/" + n ensures path != "config.yaml" { assert path[1] == 'l' && "config.yaml"[1] == 'o'; }
  }

  /** Everything before the first rename goes well. */
  ghost predicate ReachesRename(d: Dest, archive: Bytes, passphrase: string, force: bool, f: Faults, c: Crypto, codec: Codec) {
    && !f.stat && (force || d.config == None)
    && Opened(c, passphrase, archive).Some?
    && codec.unpack(Opened(c, passphrase, archive).value).Some?
    && !f.temp && !f.mkdir && !f.renameConfig
    && var stream := codec.unpack(Opened(c, passphrase, archive).value).value;
       && !stream.broken && (forall e :: e in stream.entries ==> Acceptable(e, f))
       && LastBody(stream.entries, "config.yaml").Some?
  }

  lemma PrepareIsExact(d: Dest, archive: Bytes, passphrase: string, force: bool, f: Faults, c: Crypto, codec: Codec)
    ensures Prepare(d, archive, passphrase, force, f, c, codec).Ok? <==> ReachesRename(d, archive, passphrase, force, f, c, codec)
    ensures Prepare(d, archive, passphrase, force, f, c, codec).Ok? ==>
              Ok(Prepare(d, archive, passphrase, force, f, c, codec).value)
              == ExtractAll(EMPTY_TREE, codec.unpack(Opened(c, passphrase, archive).value).value.entries, f)
  {
    hide Opened, Decrypt, ExtractAll, Acceptable, LastBody;
    DecryptIsExact(c, passphrase, archive);
    if Opened(c, passphrase, archive).Some? && codec.unpack(Opened(c, passphrase, archive).value).Some? {
      ExtractAllIsExact(codec.unpack(Opened(c, passphrase, archive).value).value.entries, f);
    }
  }

  /**
   A restore succeeds exactly when nothing is overwritten without force, the AEAD opens the archive, it unpacks
   unbroken to acceptable entries with a configuration among them, and no call fails; then the destination holds
   what the archive says, the last entry on each path winning, and nothing else.
   */
  lemma RestoreSucceedsExactly(d: Dest, archive: Bytes, passphrase: string, force: bool, f: Faults, c: Crypto, codec: Codec)
    ensures var (after, err) := Restoring(d, archive, passphrase, force, f, c, codec);
            && (err == None <==>
                  && ReachesRename(d, archive, passphrase, force, f, c, codec)
                  && !f.renameClients && (d.clients.Some? ==> forall k :: k in d.clients.value ==> k !in f.keeps))
            && (err == None ==>
                  var entries := codec.unpack(Opened(c, passphrase, archive).value).value.entries;
                  && after.config == LastBody(entries, "config.yaml") && after.clients.Some?
                  && (forall n :: n in after.clients.value <==> LastBody(entries, "clients/" + n).Some?)
                  && forall n :: n in after.clients.value ==> Some(after.clients.value[n]) == LastBody(entries, "clients/" + n))
  {
    hide Opened, Prepare, ExtractAll, Acceptable, LastBody;
    PrepareIsExact(d, archive, passphrase, force, f, c, codec);
    LeftIsWhatIsKept(d.clients, f.keeps);
    if Prepare(d, archive, passphrase, force, f, c, codec).Ok? {
      ExtractAllIsExact(codec.unpack(Opened(c, passphrase, archive).value).value.entries, f);
    }
  }

  /** After a failed removal exactly the client files that resist are there, as they were. */
  lemma LeftIsWhatIsKept(was: Option<map<string, Bytes>>, keeps: set<string>)
    ensures Left(was, keeps).Some? <==> was.Some? && exists k :: k in was.value && k in keeps
    ensures Left(was, keeps).Some? ==> PartOf(Left(was, keeps), was)
    ensures Left(was, keeps).Some? ==> forall k :: k in Left(was, keeps).value <==> k in was.value && k in keeps
  {
    if was.Some? && exists k :: k in was.value && k in keeps {
      var k :| k in was.value && k in keeps;
      var left := map k | k in was.value && k in keeps :: was.value[k];
      assert k in left;
    }
  }

  /** An existing configuration is not overwritten without force, and an archive that does not open changes nothing. */
  lemma RestoreRefuses(d: Dest, archive: Bytes, passphrase: string, force: bool, f: Faults, c: Crypto, codec: Codec)
    ensures var (after, err) := Restoring(d, archive, passphrase, force, f, c, codec);
            && (d.config.Some? && !force ==> after == d && err == Some(if f.stat then StatFailed else AlreadyExists))
            && (Opened(c, passphrase, archive) == None ==> after == d && err.Some?)
  {
    hide Opened, Decrypt, ExtractAll;
    DecryptIsExact(c, passphrase, archive);
  }

  // ---- what a restore promises ----

  /**
   A failed restore leaves the destination as it was exactly unless everything before the first rename went well and
   the last rename fails or some old client file cannot be removed; then the archived configuration is live
   beside the old client files that could not be removed.  No harm is done if that is what was there before.
   */
  lemma FailedRestore(d: Dest, archive: Bytes, passphrase: string, force: bool, f: Faults, c: Crypto, codec: Codec)
    ensures var (after, err) := Restoring(d, archive, passphrase, force, f, c, codec);
            var p, left := Prepare(d, archive, passphrase, force, f, c, codec), Left(d.clients, f.keeps);
            var late := p.Ok? && (f.renameClients || left.Some?);
            && ((err.Some? ==> after == d) <==> (late ==> p.value.config == d.config && left == d.clients))
            && (err == Some(ClientsNotMoved) <==> late)
            && (late ==> after == Dest(p.value.config, left))
            && (err == None <==> p.Ok? && !late)
  {
    hide ExtractAll, Decrypt;
    NoEarlyClientsError(d, archive, passphrase, force, f, c, codec);
  }

  lemma {:induction false} NoEarlyExtractError(tree: Tree, entries: seq<Entry>, f: Faults)
    ensures ExtractAll(tree, entries, f) != Err(ClientsNotMoved)
    decreases |entries|
  {
    if entries != [] && Extract(tree, entries[0], f).Ok? {
      NoEarlyExtractError(Extract(tree, entries[0], f).value, entries[1..], f);
    }
  }

  lemma NoEarlyClientsError(d: Dest, archive: Bytes, passphrase: string, force: bool, f: Faults, c: Crypto, codec: Codec)
    ensures Prepare(d, archive, passphrase, force, f, c, codec) != Err(ClientsNotMoved)
  {
    match Decrypt(c, passphrase, archive)
    case Err(_) =>
    case Ok(plain) =>
      if codec.unpack(plain).Some? { NoEarlyExtractError(EMPTY_TREE, codec.unpack(plain).value.entries, f); }
  }

  ghost predicate NoFaultsButLast(f: Faults) {
    !f.stat && !f.temp && (forall p :: !f.write(p)) && !f.mkdir && !f.renameConfig && f.keeps == {}
  }

  ghost predicate NoFaults(f: Faults) { NoFaultsButLast(f) && !f.renameClients }

  lemma CleanConfig()
    ensures Clean("config.yaml") == "config.yaml" && !Text.Contains("config.yaml", "/../")
    ensures !Text.HasPrefix("config.yaml", "/") && !Text.HasPrefix("config.yaml", "../")
  {
    var s := "config.yaml";
    assert '/' !in s;
    Text.SplitFirst(s, '/', "");
    assert CleanParts([s], [], false) == CleanParts([s][1..], [] + [s], false);
    NoSlashNoInfix(s);
  }

  lemma NoSlashNoInfix(s: string)
    requires '/' !in s
    ensures !Text.Contains(s, "/../")
  {
    if Text.Contains(s, "/../") {
      var i := Text.FindInfix(s, "/../");
    }
  }

  /** An archived client file is extracted under its own name. */
  lemma CleanClient(name: string)
    requires PlainName(name)
    ensures Clean("clients/" + name) == "clients/" + name && !Text.Contains("clients/" + name, "/../")
    ensures !Text.HasPrefix("clients/" + name, "/") && !Text.HasPrefix("clients/" + name, "../")
    ensures "clients/" + name != "config.yaml" && ("clients/" + name)[8..] == name
  {
    hide Text.SplitOn, Clean;
    var s := "clients/" + name;
    CleanTwoParts(name);
    OneSlash(name);
    assert s[0] == 'c' && s[1] == 'l' && "config.yaml"[1] == 'o';
  }

  lemma CleanTwoParts(name: string)
    requires PlainName(name)
    ensures Clean("clients/" + name) == "clients/" + name
  {
    hide Text.SplitOn;
    var s := "clients/" + name;
    assert '/' !in "clients" && s == "clients" + ['/'] + name;
    Text.SplitFirst("clients", '/', name);
    Text.SplitFirst(name, '/', "");
    assert [name][1..] == [] && ["clients", name][1..] == [name] && [] + ["clients"] == ["clients"];
    assert ["clients"] + [name] == ["clients", name];
    assert CleanParts([name], ["clients"], false) == ["clients", name];
    assert CleanParts(["clients", name], [], false) == CleanParts([name], ["clients"], false);
    assert Text.SplitOn(s, '/') == ["clients"] + [name];
    assert Text.Join(["clients", name], '/') == "clients" + ['/'] + Text.Join([name], '/');
    assert !Text.HasPrefix(s, "/") by { assert s[0] != '/'; }
  }

  lemma OneSlash(name: string)
    requires PlainName(name)
    ensures !Text.Contains("clients/" + name, "/../")
  {
    var s := "clients/" + name;
    assert forall k :: 0 <= k < |s| && k != 7 ==> s[k] != '/' by {
      assert forall k :: 0 <= k < |name| ==> s[k + 8] == name[k] && name[k] in name;
      assert forall k :: 8 <= k < |s| ==> s[k] == name[k - 8];
    }
    if Text.Contains(s, "/../") {
      var i := Text.FindInfix(s, "/../");
    }
  }

  /** The regular files of a listing, by name. */
  ghost function ClientFiles(entries: seq<DirEntry>): map<string, Bytes> {
    if entries == [] then map[]
    else
      var front, e := ClientFiles(entries[..|entries| - 1]), entries[|entries| - 1];
      if e.node.File? then front[e.name := e.node.body] else front
  }

  /** Each regular file under its name and nothing else: directories are skipped, no file hides another. */
  lemma {:induction false} ClientFilesAreTheFiles(entries: seq<DirEntry>)
    requires RealListing(entries)
    ensures forall i :: 0 <= i < |entries| && entries[i].node.File? ==>
              entries[i].name in ClientFiles(entries) && ClientFiles(entries)[entries[i].name] == entries[i].node.body
    ensures forall k :: k in ClientFiles(entries) ==> exists i :: 0 <= i < |entries| && entries[i].node.File? && entries[i].name == k
  {
    hide PlainName;
    if entries != [] {
      var n := |entries| - 1;
      ClientFilesAreTheFiles(entries[..n]);
      forall k | k in ClientFiles(entries)
        ensures exists i :: 0 <= i < |entries| && entries[i].node.File? && entries[i].name == k
      {
        if k in ClientFiles(entries[..n]) {
          var i :| 0 <= i < n && entries[..n][i].node.File? && entries[..n][i].name == k;
          assert entries[i].node.File? && entries[i].name == k;
        } else {
          assert entries[n].node.File? && entries[n].name == k;
        }
      }
    }
  }

  ghost predicate SmallClients(entries: seq<DirEntry>) {
    forall e :: e in entries && e.node.File? ==> |e.node.body| <= MAX_ENTRY
  }

  lemma {:induction false} ExtractAppend(tree: Tree, a: seq<Entry>, b: seq<Entry>, f: Faults)
    ensures ExtractAll(tree, a + b, f) ==
            match ExtractAll(tree, a, f) case Err(e) => Err(e) case Ok(t) => ExtractAll(t, b, f)
    decreases |a|
  {
    hide Extract;
    if a == [] {
      assert a + b == b;
    } else {
      assert (a + b)[0] == a[0] && (a + b)[1..] == a[1..] + b;
      match Extract(tree, a[0], f) {
        case Err(_) =>
        case Ok(t) => ExtractAppend(t, a[1..], b, f);
      }
    }
  }

  lemma ExtractClient(tree: Tree, name: string, body: Bytes, f: Faults)
    requires PlainName(name) && NoFaultsButLast(f)
    ensures Extract(tree, Entry("clients/" + name, body), f) ==
            if |body| > MAX_ENTRY then Err(TooLarge("clients/" + name)) else Ok(tree.(clients := tree.clients[name := body]))
  {
    CleanClient(name);
    assert Text.HasPrefix("clients/" + name, "clients/");
  }

  lemma ExtractOne(tree: Tree, e: Entry, f: Faults)
    ensures ExtractAll(tree, [e], f) == Extract(tree, e, f)
  {
  }

  lemma {:induction false} ExtractClients(config: Bytes, entries: seq<DirEntry>, f: Faults)
    requires RealListing(entries) && NoFaultsButLast(f)
    ensures var r := ExtractAll(Tree(Some(config), map[]), ClientEntries(entries), f);
            if SmallClients(entries) then r == Ok(Tree(Some(config), ClientFiles(entries))) else r.Err? && r.error.TooLarge?
  {
    hide Extract, NoFaultsButLast, PlainName;
    if entries != [] {
      var front, last := entries[..|entries| - 1], entries[|entries| - 1];
      assert entries == front + [last];
      ExtractClients(config, front, f);
      assert SmallClients(entries) <==> SmallClients(front) && (last.node.File? ==> |last.node.body| <= MAX_ENTRY);
      if last.node.File? {
        var e := Entry("clients/" + last.name, last.node.body);
        ExtractAppend(Tree(Some(config), map[]), ClientEntries(front), [e], f);
        if SmallClients(front) {
          ExtractOne(Tree(Some(config), ClientFiles(front)), e, f);
          ExtractClient(Tree(Some(config), ClientFiles(front)), last.name, last.node.body, f);
        }
      } else {
        assert ClientEntries(entries) == ClientEntries(front);
      }
    }
  }

  /** Every archived file is within the limit that `Restore` enforces and `Create` does not. */
  ghost predicate Restorable(src: Source)
    requires src.config.Some?
  {
    |src.config.value| <= MAX_ENTRY && (src.clients.Some? ==> SmallClients(src.clients.value))
  }

  ghost function SourceTree(src: Source): Tree
    requires src.config.Some?
  {
    Tree(src.config, if src.clients.Some? then ClientFiles(src.clients.value) else map[])
  }

  lemma ExtractArchive(src: Source, f: Faults)
    requires Readable(src) && NoFaultsButLast(f) && (src.clients.Some? ==> RealListing(src.clients.value))
    ensures var r := ExtractAll(EMPTY_TREE, ArchiveEntries(src), f);
            if Restorable(src) then r == Ok(SourceTree(src)) else r.Err? && r.error.TooLarge?
  {
    var e, listing := Entry("config.yaml", src.config.value), if src.clients.Some? then src.clients.value else [];
    var tail := ClientEntries(listing);
    ExtractAppend(EMPTY_TREE, [e], tail, f);
    ExtractOne(EMPTY_TREE, e, f);
    CleanConfig();
    ExtractClients(src.config.value, listing, f);
  }

  /**
   The promise that a failure leaves existing state untouched does not cover the last rename: when it fails, the
   new configuration is already live and the client files are gone.
   */
  lemma LastRenameFailureLosesClients(f: Faults, c: Crypto, codec: Codec)
    requires OpensWhatItSeals(c) && UnpacksWhatItPacks(codec) && NoFaultsButLast(f) && f.renameClients
    ensures var random := Some((seq(SALT_LEN, i => 0), seq(NONCE_LEN, i => 0)));
            var archive := Encrypt(c, "pw", codec.pack([Entry("config.yaml", [1])]), random);
            && archive.Ok?
            && Restoring(Dest(Some([0]), Some(map["alice.json" := [7]])), archive.value, "pw", true, f, c, codec)
               == (Dest(Some([1]), None), Some(ClientsNotMoved))
  {
    hide Encrypt, Decrypt, OpensWhatItSeals, ExtractAll, Clean, Text.Contains;
    var e := Entry("config.yaml", [1]);
    DecryptInvertsEncrypt(c, "pw", codec.pack([e]), Some((seq(SALT_LEN, i => 0), seq(NONCE_LEN, i => 0))));
    CleanConfig();
    ExtractOne(EMPTY_TREE, e, f);
  }

  /**
   Backup round trip.  With a working codec and AEAD and no faults, restoring a created archive succeeds exactly
   when every file is at most 8 MiB; the destination is then the source's config.yaml and regular client files,
   whatever it held before.  Otherwise it fails with "too large" and the destination is as before.
   */
  lemma RestoreInvertsCreate(src: Source, d: Dest, passphrase: string, random: Option<(Bytes, Bytes)>, force: bool, f: Faults,
                             c: Crypto, codec: Codec)
    requires Readable(src) && (src.clients.Some? ==> RealListing(src.clients.value))
    requires random.Some? && |random.value.0| == SALT_LEN && |random.value.1| == NONCE_LEN && passphrase != ""
    requires OpensWhatItSeals(c) && UnpacksWhatItPacks(codec) && NoFaults(f) && (force || d.config == None)
    ensures var archive := Encrypt(c, passphrase, codec.pack(ArchiveEntries(src)), random);
            && archive.Ok?
            && var (after, err) := Restoring(d, archive.value, passphrase, force, f, c, codec);
               if Restorable(src) then err == None && after == Dest(src.config, Some(SourceTree(src).clients))
               else after == d && err.Some? && err.value.TooLarge?
  {
    hide Encrypt, Decrypt, ExtractAll, OpensWhatItSeals, ArchiveEntries, SourceTree, Restorable;
    var plain := codec.pack(ArchiveEntries(src));
    DecryptInvertsEncrypt(c, passphrase, plain, random);
    ExtractArchive(src, f);
    ConfigOf(src);
    assert Left(d.clients, f.keeps) == None;
  }

  lemma ConfigOf(src: Source)
    requires src.config.Some?
    ensures SourceTree(src).config == src.config
  {
  }
}
