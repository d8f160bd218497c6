// Keys of the transactional store (src/fs/key.rs).
module Keys {
  import opened Types
  import opened ByteOrder

  const U64_LIMIT: nat := 0x1_0000_0000_0000_0000

  type U64 = n: nat | n < U64_LIMIT

  const UUID_LEN: nat := 16

  type Uuid = b: Bytes | |b| == UUID_LEN witness [0, 0, 0, 0, 0, 0, 0, 0, 0, 0, 0, 0, 0, 0, 0, 0]

  datatype KeyKind =
    | KeyLockStates
    | FsMetadataStatic
    | FsMetadata
    | InoMetadata
    | Block
    | DirectoryChild
    | ParentLink
    | HashedBlock
    | InoBlockHashMapping
    | HashedBlockExists
    | PendingDelete
    | NamedHashedBlock

  datatype InoMeta =
    | Description
    | LinkCount
    | Size
    | UnixAttributes
    | LockState
    | AccessTime
    | ModificationTime
    | Opened
    | FullHash
    | ChangeIterationId
    | InlineData

  datatype HashedBlockMeta = ANamedBlock | BNamedUsages | CCountedNamedUsages

  // What a key stands for.
  datatype Key =
    | LockKey(locked: Bytes, owner: Uuid)
    | MetaStaticKey
    | MetaKey
    | InoKey(ino: U64, meta: InoMeta)
    | OpenedKey(ino: U64, instance: Uuid)
    | BlockKey(ino: U64, index: U64)
    | ChildKey(parent: U64, name: Bytes)
    | ParentLinkKey(ino: U64, parent: U64, name: Bytes)
    | HashedBlockKey(hash: Bytes)
    | NamedHashedBlockKey(hash: Bytes, usage: HashedBlockMeta, user: Option<Uuid>)
    | BlockHashKey(ino: U64, index: U64)
    | HashedBlockExistsKey(hash: Bytes)

  // ---------------------------------------------------------------------------
  // Identifiers

  function KindId(kind: KeyKind): Byte {
    match kind
    case KeyLockStates => 0
    case FsMetadataStatic => 1
    case FsMetadata => 2
    case InoMetadata => 3
    case Block => 4
    case DirectoryChild => 5
    case ParentLink => 6
    case HashedBlock => 7
    case InoBlockHashMapping => 8
    case HashedBlockExists => 9
    case PendingDelete => 10
    case NamedHashedBlock => 11
  }

  // The table is searched by identifier.
  function KindOf(id: Byte): (r: Option<KeyKind>)
    ensures forall kind :: r == Some(kind) <==> KindId(kind) == id
  {
    if id == 0 then Some(KeyLockStates)
    else if id == 1 then Some(FsMetadataStatic)
    else if id == 2 then Some(FsMetadata)
    else if id == 3 then Some(InoMetadata)
    else if id == 4 then Some(Block)
    else if id == 5 then Some(DirectoryChild)
    else if id == 6 then Some(ParentLink)
    else if id == 7 then Some(HashedBlock)
    else if id == 8 then Some(InoBlockHashMapping)
    else if id == 9 then Some(HashedBlockExists)
    else if id == 10 then Some(PendingDelete)
    else if id == 11 then Some(NamedHashedBlock)
    else None
  }

  function MetaId(meta: InoMeta): Byte {
    match meta
    case Description => 0
    case LinkCount => 1
    case Size => 2
    case UnixAttributes => 3
    case LockState => 4
    case AccessTime => 5
    case ModificationTime => 6
    case Opened => 7
    case FullHash => 8
    case ChangeIterationId => 9
    case InlineData => 10
  }

  function MetaOf(id: Byte): (r: Option<InoMeta>)
    ensures forall meta :: r == Some(meta) <==> MetaId(meta) == id
  {
    if id == 0 then Some(Description)
    else if id == 1 then Some(LinkCount)
    else if id == 2 then Some(Size)
    else if id == 3 then Some(UnixAttributes)
    else if id == 4 then Some(LockState)
    else if id == 5 then Some(AccessTime)
    else if id == 6 then Some(ModificationTime)
    else if id == 7 then Some(Opened)
    else if id == 8 then Some(FullHash)
    else if id == 9 then Some(ChangeIterationId)
    else if id == 10 then Some(InlineData)
    else None
  }

  function HashedMetaId(meta: HashedBlockMeta): Byte {
    match meta
    case ANamedBlock => 0
    case BNamedUsages => 1
    case CCountedNamedUsages => 2
  }

  function HashedMetaOf(id: Byte): (r: Option<HashedBlockMeta>)
    ensures forall meta :: r == Some(meta) <==> HashedMetaId(meta) == id
  {
    if id == 0 then Some(ANamedBlock)
    else if id == 1 then Some(BNamedUsages)
    else if id == 2 then Some(CCountedNamedUsages)
    else None
  }

  // The identifiers number the variants as they are declared.
  lemma IdentifiersAreNumbered()
    ensures var kinds := [KeyLockStates, FsMetadataStatic, FsMetadata, InoMetadata, Block, DirectoryChild, ParentLink,
                          HashedBlock, InoBlockHashMapping, HashedBlockExists, PendingDelete, NamedHashedBlock];
            forall i | 0 <= i < |kinds| :: KindId(kinds[i]) == i as Byte
    ensures var metas := [Description, LinkCount, Size, UnixAttributes, LockState, AccessTime, ModificationTime, Opened,
                          FullHash, ChangeIterationId, InlineData];
            forall i | 0 <= i < |metas| :: MetaId(metas[i]) == i as Byte
    ensures var usages := [ANamedBlock, BNamedUsages, CCountedNamedUsages];
            forall i | 0 <= i < |usages| :: HashedMetaId(usages[i]) == i as Byte
  {
  }

  // ---------------------------------------------------------------------------
  // Building

  function Kind(key: Key): KeyKind {
    match key
    case LockKey(_, _) => KeyLockStates
    case MetaStaticKey => FsMetadataStatic
    case MetaKey => FsMetadata
    case InoKey(_, _) => InoMetadata
    case OpenedKey(_, _) => InoMetadata
    case BlockKey(_, _) => Block
    case ChildKey(_, _) => DirectoryChild
    case ParentLinkKey(_, _, _) => ParentLink
    case HashedBlockKey(_) => HashedBlock
    case NamedHashedBlockKey(_, _, _) => HashedBlock
    case BlockHashKey(_, _) => InoBlockHashMapping
    case HashedBlockExistsKey(_) => HashedBlockExists
  }

  function Number(v: U64): (r: Bytes)
    ensures |r| == 8
  {
    BigEndian(v, 8)
  }

  function Body(key: Key): Bytes {
    match key
    case LockKey(locked, owner) => locked + owner
    case MetaStaticKey => []
    case MetaKey => []
    case InoKey(ino, meta) => Number(ino) + [MetaId(meta)]
    case OpenedKey(ino, instance) => Number(ino) + ([MetaId(Opened)] + instance)
    case BlockKey(ino, index) => Number(ino) + Number(index)
    case ChildKey(parent, name) => Number(parent) + name
    case ParentLinkKey(ino, parent, name) => Number(ino) + (Number(parent) + name)
    case HashedBlockKey(hash) => hash
    case NamedHashedBlockKey(hash, meta, name) =>
      hash + ([HashedMetaId(meta)] + if name.Some? then name.value else [])
    case BlockHashKey(ino, index) => Number(ino) + Number(index)
    case HashedBlockExistsKey(hash) => hash
  }

  function Build(prefix: Bytes, key: Key): Bytes {
    prefix + ([KindId(Kind(key))] + Body(key))
  }

  // All hashes of one file system have the same length.
  predicate FixedHash(key: Key, hashLen: nat) {
    (key.HashedBlockKey? || key.NamedHashedBlockKey? || key.HashedBlockExistsKey?) ==> |key.hash| == hashLen
  }

  lemma Regroup(a: Bytes, b: Bytes, c: Bytes)
    ensures (a + b) + c == a + (b + c)
  {
  }

  // The builder appends to a buffer that it owns.
  class ScopedKeyBuilder {
    var buf: Bytes

    constructor (prefix: Bytes)
      ensures buf == prefix
    {
      buf := prefix;
    }

    method Push(bytes: Bytes)
      modifies this
      ensures buf == old(buf) + bytes
    {
      buf := buf + bytes;
    }

    method WriteKeyKind(kind: KeyKind)
      modifies this
      ensures buf == old(buf) + [KindId(kind)]
    {
      Push([KindId(kind)]);
    }

    method WriteBigEndian(v: U64)
      modifies this
      ensures buf == old(buf) + Number(v)
    {
      Push(BigEndian(v, 8));
    }

    method KeyLockState(locked: Bytes, owner: Uuid)
      modifies this
      ensures buf == Build(old(buf), LockKey(locked, owner))
    {
      WriteKeyKind(KeyLockStates);
      Push(locked);
      Push(owner);
    }

    method InodeX(ino: U64, meta: InoMeta)
      modifies this
      ensures buf == Build(old(buf), InoKey(ino, meta))
    {
      WriteKeyKind(InoMetadata);
      WriteBigEndian(ino);
      Push([MetaId(meta)]);
    }

    method OpenedInode(ino: U64, instance: Uuid)
      modifies this
      ensures buf == Build(old(buf), OpenedKey(ino, instance))
    {
      InodeX(ino, Opened);
      Push(instance);
    }

    method BlockHash(ino: U64, index: U64)
      modifies this
      ensures buf == Build(old(buf), BlockHashKey(ino, index))
    {
      WriteKeyKind(InoBlockHashMapping);
      WriteBigEndian(ino);
      WriteBigEndian(index);
    }

    method NamedHashedBlockX(hash: Bytes, meta: Option<HashedBlockMeta>, name: Option<Uuid>)
      modifies this
      ensures buf == Build(old(buf), if meta.None? then HashedBlockKey(hash)
                                     else NamedHashedBlockKey(hash, meta.value, name))
    {
      WriteKeyKind(HashedBlock);
      Push(hash);
      Regroup(old(buf), [KindId(HashedBlock)], hash);
      if meta.None? { return; }
      ghost var head, id := [KindId(HashedBlock)] + hash, [HashedMetaId(meta.value)];
      Push([HashedMetaId(meta.value)]);
      Regroup(old(buf), head, id);
      Regroup([KindId(HashedBlock)], hash, id);
      if name.None? {
        assert id + [] == id;
        return;
      }
      Push(name.value);
      Regroup(old(buf), head + id, name.value);
      Regroup([KindId(HashedBlock)], hash + id, name.value);
      Regroup(hash, id, name.value);
    }

    method DirectoryChild(parent: U64, name: Bytes)
      modifies this
      ensures buf == Build(old(buf), ChildKey(parent, name))
    {
      WriteKeyKind(KeyKind.DirectoryChild);
      WriteBigEndian(parent);
      Push(name);
    }

    method ParentLink(ino: U64, parent: U64, name: Bytes)
      modifies this
      ensures buf == Build(old(buf), ParentLinkKey(ino, parent, name))
    {
      WriteKeyKind(KeyKind.ParentLink);
      WriteBigEndian(ino);
      ghost var id := [KindId(KeyKind.ParentLink)];
      Regroup(old(buf), id, Number(ino));
      WriteBigEndian(parent);
      Regroup(old(buf), id + Number(ino), Number(parent));
      Regroup(id, Number(ino), Number(parent));
      Push(name);
      Regroup(old(buf), id + (Number(ino) + Number(parent)), name);
      Regroup(id, Number(ino) + Number(parent), name);
      Regroup(Number(ino), Number(parent), name);
    }
  }

  // ---------------------------------------------------------------------------
  // Parsing

  datatype KeyError = PrefixMismatch | UnknownKind | UnknownMeta | WrongKind | TooShort | OtherLockedKey

  function Take(i: Bytes, n: nat): (r: Bytes)
    ensures r <= i
  {
    if n <= |i| then i[..n] else i
  }

  // The identifier at the front; an exhausted key reads as 0xFF, which is no identifier.
  function NextId(i: Bytes): Byte {
    if i == [] then 0xFF else i[0]
  }

  function Rest(i: Bytes, n: nat): Bytes {
    if n <= |i| then i[n..] else []
  }

  function StartOf(bytes: Bytes, prefix: Bytes): Result<(KeyKind, Bytes), KeyError> {
    if Take(bytes, |prefix|) != prefix then Err(PrefixMismatch)
    else
      var i := Rest(bytes, |prefix|);
      match KindOf(NextId(i))
      case None => Err(UnknownKind)
      case Some(kind) => Ok((kind, Rest(i, 1)))
  }

  function ReadNumber(i: Bytes): Result<(U64, Bytes), KeyError> {
    if |i| < 8 then Err(TooShort)
    else
      EightBytesFit(i[..8]);
      Ok((FromBigEndian(i[..8]), i[8..]))
  }

  lemma {:induction false} EightBytesFit(b: Bytes)
    requires |b| == 8
    ensures FromBigEndian(b) < U64_LIMIT
  {
    WriteAfterRead(b);
    U64IsEightBytes();
  }

  lemma U64IsEightBytes()
    ensures Pow256(8) == U64_LIMIT
  {
    assert Pow256(4) == 0x1_0000_0000;
  }

  function InoOf(kind: KeyKind, i: Bytes): Result<(U64, InoMeta), KeyError> {
    if kind != InoMetadata then Err(WrongKind)
    else
      match ReadNumber(i)
      case Err(e) => Err(e)
      case Ok((ino, rest)) =>
        match MetaOf(NextId(rest))
        case None => Err(UnknownMeta)
        case Some(meta) => Ok((ino, meta))
  }

  function HashOf(hashLen: nat, i: Bytes): Result<(Bytes, Bytes), KeyError> {
    if |Take(i, hashLen)| != hashLen then Err(TooShort) else Ok((Take(i, hashLen), Rest(i, hashLen)))
  }

  function HashBlockOf(kind: KeyKind, hashLen: nat, i: Bytes): Result<(Bytes, HashedBlockMeta), KeyError> {
    if kind != HashedBlock then Err(WrongKind)
    else
      match HashOf(hashLen, i)
      case Err(e) => Err(e)
      case Ok((hash, rest)) =>
        match HashedMetaOf(NextId(rest))
        case None => Err(UnknownMeta)
        case Some(meta) => Ok((hash, meta))
  }

  function HashedBlockOf(kind: KeyKind, hashLen: nat, i: Bytes): Result<Bytes, KeyError> {
    if kind != HashedBlock && kind != HashedBlockExists then Err(WrongKind)
    else
      match HashOf(hashLen, i)
      case Err(e) => Err(e)
      case Ok((hash, _)) => Ok(hash)
  }

  function AddressOf(kind: KeyKind, i: Bytes): Result<(U64, U64), KeyError> {
    if kind != Block && kind != InoBlockHashMapping then Err(WrongKind)
    else
      match ReadNumber(i)
      case Err(e) => Err(e)
      case Ok((ino, rest)) =>
        match ReadNumber(rest)
        case Err(e) => Err(e)
        case Ok((index, _)) => Ok((ino, index))
  }

  function LockOwnerOf(kind: KeyKind, locked: Bytes, i: Bytes): Result<Uuid, KeyError> {
    if kind != KeyLockStates then Err(WrongKind)
    else if Take(i, |locked|) != locked then Err(OtherLockedKey)
    else if |Rest(i, |locked|)| < UUID_LEN then Err(TooShort)
    else Ok(Rest(i, |locked|)[..UUID_LEN])
  }

  function ChildOf(kind: KeyKind, i: Bytes): Result<(U64, Bytes), KeyError> {
    if kind != DirectoryChild then Err(WrongKind) else ReadNumber(i)
  }

  // The parser consumes the bytes from the front.
  class KeyParser {
    const hashLen: nat
    var i: Bytes
    var kind: KeyKind

    constructor (i: Bytes, hashLen: nat, kind: KeyKind)
      ensures this.i == i && this.hashLen == hashLen && this.kind == kind
    {
      this.i, this.hashLen, this.kind := i, hashLen, kind;
    }

    static method Start(bytes: Bytes, prefix: Bytes, hashLen: nat) returns (r: Result<KeyParser, KeyError>)
      ensures match StartOf(bytes, prefix)
              case Ok((kind, i)) =>
                r.Ok? && fresh(r.value) && r.value.kind == kind && r.value.i == i && r.value.hashLen == hashLen
              case Err(e) => r == Err(e)
    {
      var parser := new KeyParser(bytes, hashLen, KeyLockStates);
      var act := parser.TakeBytes(|prefix|);
      if act != prefix { return Err(PrefixMismatch); }
      var id := parser.Next();
      match KindOf(id)
      case None => return Err(UnknownKind);
      case Some(kind) =>
        parser.kind := kind;
        return Ok(parser);
    }

    method TakeBytes(n: nat) returns (r: Bytes)
      modifies `i
      ensures r == Take(old(i), n) && i == Rest(old(i), n)
    {
      r := [];
      while |r| < n && i != []
        invariant |r| <= n && r + i == old(i)
        decreases |i|
      {
        r, i := r + [i[0]], i[1..];
      }
      assert old(i) == r + i;
      if |r| == n { assert old(i)[..n] == r && old(i)[n..] == i; } else { assert old(i) == r; }
    }

    method Next() returns (id: Byte)
      modifies `i
      ensures id == NextId(old(i)) && i == Rest(old(i), 1)
    {
      if i == [] { return 0xFF; }
      id, i := i[0], i[1..];
    }

    // Eight bytes, the highest first.
    method ReadBigEndian() returns (r: Result<U64, KeyError>)
      modifies `i
      ensures match ReadNumber(old(i))
              case Ok((v, rest)) => r == Ok(v) && i == rest
              case Err(e) => r == Err(e)
    {
      var chunk := TakeBytes(8);
      if |chunk| < 8 { return Err(TooShort); }
      EightBytesFit(chunk);
      r := Ok(FromBigEndian(chunk));
    }

    method ParseIno() returns (r: Result<(U64, InoMeta), KeyError>)
      modifies `i
      ensures r == InoOf(kind, old(i))
    {
      if kind != InoMetadata { return Err(WrongKind); }
      var number := ReadBigEndian();
      if number.Err? { return Err(number.error); }
      var id := Next();
      match MetaOf(id)
      case None => r := Err(UnknownMeta);
      case Some(meta) => r := Ok((number.value, meta));
    }

    method ParseHash() returns (r: Result<Bytes, KeyError>)
      modifies `i
      ensures match HashOf(hashLen, old(i))
              case Ok((hash, rest)) => r == Ok(hash) && i == rest
              case Err(e) => r == Err(e)
    {
      var hash := TakeBytes(hashLen);
      if |hash| != hashLen { return Err(TooShort); }
      r := Ok(hash);
    }

    method ParseKeyHashedBlock() returns (r: Result<Bytes, KeyError>)
      modifies `i
      ensures r == HashedBlockOf(kind, hashLen, old(i))
    {
      if kind != HashedBlock && kind != HashedBlockExists { return Err(WrongKind); }
      r := ParseHash();
    }

    method ParseKeyBlockAddress() returns (r: Result<(U64, U64), KeyError>)
      modifies `i
      ensures r == AddressOf(kind, old(i))
    {
      if kind != Block && kind != InoBlockHashMapping { return Err(WrongKind); }
      var ino := ReadBigEndian();
      if ino.Err? { return Err(ino.error); }
      var index := ReadBigEndian();
      if index.Err? { return Err(index.error); }
      r := Ok((ino.value, index.value));
    }

    method ParseLockKey(locked: Bytes) returns (r: Result<Uuid, KeyError>)
      modifies `i
      ensures r == LockOwnerOf(kind, locked, old(i))
    {
      if kind != KeyLockStates { return Err(WrongKind); }
      var act := TakeBytes(|locked|);
      if act != locked { return Err(OtherLockedKey); }
      var uuid := TakeBytes(UUID_LEN);
      if |uuid| < UUID_LEN { return Err(TooShort); }
      r := Ok(uuid);
    }

    method ParseDirectoryChild() returns (r: Result<(U64, Bytes), KeyError>)
      modifies `i
      ensures r == ChildOf(kind, old(i))
    {
      if kind != DirectoryChild { return Err(WrongKind); }
      var parent := ReadBigEndian();
      if parent.Err? { return Err(parent.error); }
      r := Ok((parent.value, i));
    }
  }

  // ---------------------------------------------------------------------------
  // Round trips

  lemma NumberRoundTrip(v: U64, rest: Bytes)
    ensures ReadNumber(Number(v) + rest) == Ok((v, rest))
  {
    U64IsEightBytes();
    ReadAfterWrite(v, 8);
    assert (Number(v) + rest)[..8] == Number(v);
    assert (Number(v) + rest)[8..] == rest;
  }

  lemma StartOfBuilt(prefix: Bytes, key: Key)
    ensures StartOf(Build(prefix, key), prefix) == Ok((Kind(key), Body(key)))
  {
    var tail := [KindId(Kind(key))] + Body(key);
    assert Build(prefix, key)[..|prefix|] == prefix;
    assert Build(prefix, key)[|prefix|..] == tail && tail[1..] == Body(key);
    assert KindOf(tail[0]) == Some(Kind(key));
  }

  // Parsing a built key gives its components back, for every prefix.
  lemma ParseAfterBuild(prefix: Bytes, key: Key, hashLen: nat)
    requires FixedHash(key, hashLen)
    ensures StartOf(Build(prefix, key), prefix) == Ok((Kind(key), Body(key)))
    ensures match key
            case LockKey(locked, owner) => LockOwnerOf(Kind(key), locked, Body(key)) == Ok(owner)
            case InoKey(ino, meta) => InoOf(Kind(key), Body(key)) == Ok((ino, meta))
            case OpenedKey(ino, _) => InoOf(Kind(key), Body(key)) == Ok((ino, Opened))
            case BlockKey(ino, index) => AddressOf(Kind(key), Body(key)) == Ok((ino, index))
            case BlockHashKey(ino, index) => AddressOf(Kind(key), Body(key)) == Ok((ino, index))
            case ChildKey(parent, name) => ChildOf(Kind(key), Body(key)) == Ok((parent, name))
            case HashedBlockKey(hash) => HashedBlockOf(Kind(key), hashLen, Body(key)) == Ok(hash)
            case HashedBlockExistsKey(hash) => HashedBlockOf(Kind(key), hashLen, Body(key)) == Ok(hash)
            case NamedHashedBlockKey(hash, meta, _) => HashBlockOf(Kind(key), hashLen, Body(key)) == Ok((hash, meta))
            case _ => true
  {
    StartOfBuilt(prefix, key);
    match key
    case LockKey(locked, owner) =>
      LockRoundTrip(locked, owner, []);
      assert Body(key) == locked + owner + [];
    case InoKey(ino, meta) => NumberRoundTrip(ino, [MetaId(meta)]);
    case OpenedKey(ino, instance) => NumberRoundTrip(ino, [MetaId(Opened)] + instance);
    case BlockKey(ino, index) => AddressRoundTrip(ino, index);
    case BlockHashKey(ino, index) => AddressRoundTrip(ino, index);
    case ChildKey(parent, name) => NumberRoundTrip(parent, name);
    case HashedBlockKey(hash) => assert Body(key)[..hashLen] == hash;
    case HashedBlockExistsKey(hash) => assert Body(key)[..hashLen] == hash;
    case NamedHashedBlockKey(hash, meta, name) =>
      var tail := [HashedMetaId(meta)] + if name.Some? then name.value else [];
      assert Body(key)[..hashLen] == hash && Body(key)[hashLen..] == tail && tail[0] == HashedMetaId(meta);
    case _ =>
  }

  // A lock key parses for any bytes that follow it.
  lemma LockRoundTrip(locked: Bytes, owner: Uuid, rest: Bytes)
    ensures LockOwnerOf(KeyLockStates, locked, locked + owner + rest) == Ok(owner)
  {
    var i := locked + owner + rest;
    assert i[..|locked|] == locked;
    assert i[|locked|..] == owner + rest && (owner + rest)[..UUID_LEN] == owner;
  }

  lemma AddressRoundTrip(ino: U64, index: U64)
    ensures ReadNumber(Number(ino) + Number(index)) == Ok((ino, Number(index)))
    ensures ReadNumber(Number(index)) == Ok((index, []))
  {
    NumberRoundTrip(ino, Number(index));
    NumberRoundTrip(index, []);
    assert Number(index) + [] == Number(index);
  }

  lemma NumberWasThere(i: Bytes)
    requires ReadNumber(i).Ok?
    ensures var (v, rest) := ReadNumber(i).value; Number(v) + rest == i
  {
    WriteAfterRead(i[..8]);
  }

  lemma StartWasThere(bytes: Bytes, prefix: Bytes)
    requires StartOf(bytes, prefix).Ok?
    ensures var (kind, i) := StartOf(bytes, prefix).value; bytes == prefix + ([KindId(kind)] + i)
  {
    var i := Rest(bytes, |prefix|);
    assert bytes == prefix + i;
    if i != [] { assert i == [i[0]] + i[1..]; }
  }

  // Whatever parses as a directory entry is the key built from what was parsed.
  lemma BuildAfterParseChild(bytes: Bytes, prefix: Bytes)
    requires StartOf(bytes, prefix).Ok?
    requires var (kind, i) := StartOf(bytes, prefix).value; ChildOf(kind, i).Ok?
    ensures var (kind, i) := StartOf(bytes, prefix).value;
            var (parent, name) := ChildOf(kind, i).value;
            bytes == Build(prefix, ChildKey(parent, name))
  {
    StartWasThere(bytes, prefix);
    NumberWasThere(StartOf(bytes, prefix).value.1);
  }

  lemma TrailingBytes(prefix: Bytes, kind: Bytes, a: Bytes, b: Bytes, tail: Bytes)
    ensures prefix + (kind + (a + b)) <= prefix + (kind + (a + (b + tail)))
  {
    assert prefix + (kind + (a + (b + tail))) == (prefix + (kind + (a + b))) + tail;
  }

  // Whatever parses as a block address begins with the key built from it; trailing
  // bytes are ignored.
  lemma BuildAfterParseAddress(bytes: Bytes, prefix: Bytes)
    requires StartOf(bytes, prefix).Ok?
    requires var (kind, i) := StartOf(bytes, prefix).value; AddressOf(kind, i).Ok?
    ensures var (kind, i) := StartOf(bytes, prefix).value;
            var (ino, index) := AddressOf(kind, i).value;
            Build(prefix, if kind.Block? then BlockKey(ino, index) else BlockHashKey(ino, index)) <= bytes
  {
    StartWasThere(bytes, prefix);
    var (kind, i) := StartOf(bytes, prefix).value;
    NumberWasThere(i);
    var (ino, rest) := ReadNumber(i).value;
    NumberWasThere(rest);
    var (index, tail) := ReadNumber(rest).value;
    TrailingBytes(prefix, [KindId(kind)], Number(ino), Number(index), tail);
  }

  // ---------------------------------------------------------------------------
  // Which bytes are parsed, and which error the others give

  lemma StartIff(bytes: Bytes, prefix: Bytes, kind: KeyKind, i: Bytes)
    ensures StartOf(bytes, prefix) == Ok((kind, i)) <==> bytes == prefix + ([KindId(kind)] + i)
    ensures StartOf(bytes, prefix) == Err(PrefixMismatch) <==> !(prefix <= bytes)
    ensures StartOf(bytes, prefix).Ok? || StartOf(bytes, prefix).error in {PrefixMismatch, UnknownKind}
  {
    if StartOf(bytes, prefix).Ok? { StartWasThere(bytes, prefix); }
    if bytes == prefix + ([KindId(kind)] + i) {
      assert bytes[..|prefix|] == prefix && bytes[|prefix|..] == [KindId(kind)] + i;
      assert KindOf(KindId(kind)) == Some(kind) && ([KindId(kind)] + i)[1..] == i;
    }
  }

  lemma NumberIff(i: Bytes, v: U64, rest: Bytes)
    ensures ReadNumber(i) == Ok((v, rest)) <==> i == Number(v) + rest
    ensures ReadNumber(i) == Err(TooShort) <==> |i| < 8
    ensures ReadNumber(i).Err? ==> ReadNumber(i).error == TooShort
  {
    if ReadNumber(i).Ok? { NumberWasThere(i); }
    if i == Number(v) + rest { NumberRoundTrip(v, rest); }
  }

  // A number at the front and what follows it.
  lemma NumberInFront(v: U64, i: Bytes, next: Bytes)
    ensures Number(v) + next <= i <==> |i| >= 8 && ReadNumber(i) == Ok((v, i[8..])) && next <= i[8..]
  {
    if Number(v) + next <= i {
      var rest := i[8 + |next|..];
      assert i == Number(v) + (next + rest);
      NumberRoundTrip(v, next + rest);
    }
    if |i| >= 8 && ReadNumber(i) == Ok((v, i[8..])) && next <= i[8..] {
      NumberWasThere(i);
      assert i == (Number(v) + next) + i[8 + |next|..];
    }
  }

  lemma InoIff(kind: KeyKind, i: Bytes, ino: U64, meta: InoMeta)
    ensures InoOf(kind, i) == Ok((ino, meta)) <==> kind == InoMetadata && Number(ino) + [MetaId(meta)] <= i
    ensures InoOf(kind, i) == Err(WrongKind) <==> kind != InoMetadata
    ensures InoOf(kind, i) == Err(TooShort) <==> kind == InoMetadata && |i| < 8
  {
    NumberInFront(ino, i, [MetaId(meta)]);
    if |i| >= 8 {
      NumberWasThere(i);
      assert [MetaId(meta)] <= i[8..] <==> i[8..] != [] && NextId(i[8..]) == MetaId(meta);
    }
  }

  lemma AddressIff(kind: KeyKind, i: Bytes, ino: U64, index: U64)
    ensures AddressOf(kind, i) == Ok((ino, index)) <==>
            (kind == Block || kind == InoBlockHashMapping) && Number(ino) + Number(index) <= i
    ensures AddressOf(kind, i) == Err(WrongKind) <==> kind != Block && kind != InoBlockHashMapping
    ensures AddressOf(kind, i) == Err(TooShort) <==> (kind == Block || kind == InoBlockHashMapping) && |i| < 16
  {
    NumberInFront(ino, i, Number(index));
    if |i| >= 16 {
      NumberInFront(index, i[8..], []);
      assert Number(index) + [] == Number(index);
    }
  }

  lemma ChildIff(kind: KeyKind, i: Bytes, parent: U64, name: Bytes)
    ensures ChildOf(kind, i) == Ok((parent, name)) <==> kind == DirectoryChild && i == Number(parent) + name
    ensures ChildOf(kind, i) == Err(WrongKind) <==> kind != DirectoryChild
    ensures ChildOf(kind, i) == Err(TooShort) <==> kind == DirectoryChild && |i| < 8
  {
    NumberIff(i, parent, name);
  }

  lemma HashedBlockIff(kind: KeyKind, hashLen: nat, i: Bytes, hash: Bytes)
    ensures HashedBlockOf(kind, hashLen, i) == Ok(hash) <==>
            (kind == HashedBlock || kind == HashedBlockExists) && |hash| == hashLen && hash <= i
    ensures HashedBlockOf(kind, hashLen, i) == Err(WrongKind) <==> kind != HashedBlock && kind != HashedBlockExists
    ensures HashedBlockOf(kind, hashLen, i) == Err(TooShort) <==>
            (kind == HashedBlock || kind == HashedBlockExists) && |i| < hashLen
  {
    if |hash| == hashLen && hash <= i { assert i[..hashLen] == hash; }
  }

  lemma LockOwnerIff(kind: KeyKind, locked: Bytes, i: Bytes, owner: Uuid)
    ensures LockOwnerOf(kind, locked, i) == Ok(owner) <==> kind == KeyLockStates && locked + owner <= i
    ensures LockOwnerOf(kind, locked, i) == Err(WrongKind) <==> kind != KeyLockStates
    ensures LockOwnerOf(kind, locked, i) == Err(OtherLockedKey) <==> kind == KeyLockStates && !(locked <= i)
    ensures LockOwnerOf(kind, locked, i) == Err(TooShort) <==>
            kind == KeyLockStates && locked <= i && |i| < |locked| + UUID_LEN
  {
    if locked + owner <= i {
      LockRoundTrip(locked, owner, i[|locked| + UUID_LEN..]);
      assert i == locked + owner + i[|locked| + UUID_LEN..];
      assert i == locked + (owner + i[|locked| + UUID_LEN..]);
    }
    if locked <= i && |i| >= |locked| + UUID_LEN && LockOwnerOf(kind, locked, i) == Ok(owner) {
      assert i[..|locked|] == locked && i[|locked|..][..UUID_LEN] == owner;
      assert i == locked + owner + i[|locked| + UUID_LEN..];
    }
  }

  // ---------------------------------------------------------------------------
  // No two keys share their bytes

  lemma SameBeginning(x: Bytes, y: Bytes, s: Bytes, t: Bytes)
    requires |x| == |y| && x + s == y + t
    ensures x == y && s == t
  {
    assert x == (x + s)[..|x|] && y == (y + t)[..|y|];
    assert s == (x + s)[|x|..] && t == (y + t)[|y|..];
  }

  lemma SameNumber(v: U64, w: U64, s: Bytes, t: Bytes)
    requires Number(v) + s == Number(w) + t
    ensures v == w && s == t
  {
    NumberRoundTrip(v, s);
    NumberRoundTrip(w, t);
  }

  lemma SameBodies(key: Key, other: Key, hashLen: nat)
    requires FixedHash(key, hashLen) && FixedHash(other, hashLen)
    requires Kind(key) == Kind(other) && Body(key) == Body(other)
    ensures key == other
  {
    match key
    case LockKey(locked, owner) => SameBeginning(locked, other.locked, owner, other.owner);
    case InoKey(ino, meta) => InoBodies(key, other);
    case OpenedKey(ino, instance) => InoBodies(key, other);
    case BlockKey(ino, index) => AddressRoundTrip(ino, index); AddressRoundTrip(other.ino, other.index);
    case BlockHashKey(ino, index) => AddressRoundTrip(ino, index); AddressRoundTrip(other.ino, other.index);
    case ChildKey(parent, name) => SameNumber(parent, other.parent, name, other.name);
    case ParentLinkKey(ino, parent, name) =>
      SameNumber(ino, other.ino, Number(parent) + name, Number(other.parent) + other.name);
      SameNumber(parent, other.parent, name, other.name);
    case HashedBlockKey(hash) => HashBodies(key, other, hashLen);
    case NamedHashedBlockKey(hash, meta, name) => HashBodies(key, other, hashLen);
    case _ =>
  }

  lemma InoBodies(key: Key, other: Key)
    requires Kind(key) == Kind(other) == InoMetadata && Body(key) == Body(other)
    ensures key == other
  {
    var s := if key.InoKey? then [MetaId(key.meta)] else [MetaId(Opened)] + key.instance;
    var t := if other.InoKey? then [MetaId(other.meta)] else [MetaId(Opened)] + other.instance;
    SameNumber(key.ino, other.ino, s, t);
    if key.InoKey? {
      assert MetaOf(s[0]) == Some(key.meta);
    } else {
      assert s[1..] == key.instance;
    }
    if other.OpenedKey? { assert t[1..] == other.instance; }
  }

  lemma HashBodies(key: Key, other: Key, hashLen: nat)
    requires FixedHash(key, hashLen) && FixedHash(other, hashLen)
    requires Kind(key) == Kind(other) == HashedBlock && Body(key) == Body(other)
    ensures key == other
  {
    if key.NamedHashedBlockKey? && other.NamedHashedBlockKey? {
      var n := if key.user.Some? then key.user.value else [];
      var m := if other.user.Some? then other.user.value else [];
      SameBeginning(key.hash, other.hash, [HashedMetaId(key.usage)] + n, [HashedMetaId(other.usage)] + m);
      SameBeginning([HashedMetaId(key.usage)], [HashedMetaId(other.usage)], n, m);
      assert HashedMetaOf(HashedMetaId(key.usage)) == Some(key.usage);
    }
  }

  // Under one prefix and one hash length, no two keys share their bytes.
  lemma BuildIsInjective(prefix: Bytes, key: Key, other: Key, hashLen: nat)
    requires FixedHash(key, hashLen) && FixedHash(other, hashLen)
    ensures Build(prefix, key) == Build(prefix, other) <==> key == other
  {
    if Build(prefix, key) == Build(prefix, other) {
      StartOfBuilt(prefix, key);
      StartOfBuilt(prefix, other);
      SameBodies(key, other, hashLen);
    }
  }

  // ---------------------------------------------------------------------------
  // Range scans

  // A scan returns the keys from `from` (included) to `to` (excluded).
  predicate InScan(k: Bytes, from: Bytes, to: Bytes) {
    !Before(k, from) && Before(k, to)
  }

  predicate InClosedScan(k: Bytes, from: Bytes, to: Bytes) {
    !Before(k, from) && !Before(to, k)
  }

  // Keys sort by kind first and by what follows the kind second.
  lemma KeyOrder(prefix: Bytes, key: Key, other: Key)
    ensures Before(Build(prefix, key), Build(prefix, other)) <==>
            KindId(Kind(key)) < KindId(Kind(other)) || (Kind(key) == Kind(other) && Before(Body(key), Body(other)))
  {
    var k, o := KindId(Kind(key)), KindId(Kind(other));
    NeverBeforeItself(prefix);
    BeginningsDecide(prefix, prefix, [k] + Body(key), [o] + Body(other));
    BeginningsDecide([k], [o], Body(key), Body(other));
    assert [k][1..] == [] && [o][1..] == [];
    assert KindOf(k) == Some(Kind(key));
  }

  lemma {:induction false} NumberOrder(v: U64, w: U64, s: Bytes, t: Bytes)
    ensures Before(Number(v) + s, Number(w) + t) <==> v < w || (v == w && Before(s, t))
  {
    U64IsEightBytes();
    NumbersDecide(v, w, 8, s, t);
  }

  lemma AddressOrder(ino: U64, index: U64, ino': U64, index': U64)
    ensures Before(Number(ino) + Number(index), Number(ino') + Number(index')) <==>
            ino < ino' || (ino == ino' && index < index')
  {
    NumberOrder(ino, ino', Number(index), Number(index'));
    U64IsEightBytes();
    BigEndianOrder(index, index', 8);
  }

  // Scanning `block_hash_range(ino, from..to)` returns exactly the block hash keys of
  // the inode with these indices, whatever else is stored under the prefix.
  lemma BlockHashRangeIsExact(prefix: Bytes, ino: U64, from: U64, to: U64, key: Key)
    ensures var first, end := Build(prefix, BlockHashKey(ino, from)), Build(prefix, BlockHashKey(ino, to));
            InScan(Build(prefix, key), first, end) <==> key.BlockHashKey? && key.ino == ino && from <= key.index < to
  {
    KeyOrder(prefix, key, BlockHashKey(ino, from));
    KeyOrder(prefix, key, BlockHashKey(ino, to));
    if key.BlockHashKey? {
      AddressOrder(key.ino, key.index, ino, from);
      AddressOrder(key.ino, key.index, ino, to);
    }
  }

  // The bytes before all names of directory `dir`.
  function ChildrenFrom(prefix: Bytes, dir: U64): Bytes {
    Build(prefix, ChildKey(dir, []))
  }

  // Scanning `directory_child_range(dir)` returns exactly the entries of the directory,
  // for names of any length.
  lemma DirectoryChildRangeIsExact(prefix: Bytes, dir: U64, key: Key)
    requires dir + 1 < U64_LIMIT
    ensures InScan(Build(prefix, key), ChildrenFrom(prefix, dir), ChildrenFrom(prefix, dir + 1)) <==>
            key.ChildKey? && key.parent == dir
  {
    KeyOrder(prefix, key, ChildKey(dir, []));
    KeyOrder(prefix, key, ChildKey(dir + 1, []));
    if key.ChildKey? {
      NumberOrder(key.parent, dir, key.name, []);
      NumberOrder(key.parent, dir + 1, key.name, []);
    }
  }

  // The scan bounds of `parent_link_scan` end after the inode number.
  function LinksFrom(prefix: Bytes, ino: U64): Bytes {
    prefix + ([KindId(ParentLink)] + Number(ino))
  }

  lemma LinksOrder(prefix: Bytes, key: Key, ino: U64)
    ensures Before(Build(prefix, key), LinksFrom(prefix, ino)) <==>
            KindId(Kind(key)) < KindId(ParentLink) || (key.ParentLinkKey? && key.ino < ino)
  {
    var k, o := KindId(Kind(key)), KindId(ParentLink);
    NeverBeforeItself(prefix);
    BeginningsDecide(prefix, prefix, [k] + Body(key), [o] + Number(ino));
    BeginningsDecide([k], [o], Body(key), Number(ino));
    assert [k][1..] == [] && [o][1..] == [];
    assert KindOf(k) == Some(Kind(key));
    if key.ParentLinkKey? {
      assert Number(ino) + [] == Number(ino);
      NumberOrder(key.ino, ino, Number(key.parent) + key.name, []);
    }
  }

  // Scanning `parent_link_scan(ino)` returns exactly the parent links of the inode.
  lemma ParentLinkScanIsExact(prefix: Bytes, ino: U64, key: Key)
    requires ino + 1 < U64_LIMIT
    ensures InScan(Build(prefix, key), LinksFrom(prefix, ino), LinksFrom(prefix, ino + 1)) <==>
            key.ParentLinkKey? && key.ino == ino
  {
    LinksOrder(prefix, key, ino);
    LinksOrder(prefix, key, ino + 1);
  }

  // Scanning `inode_metadata_range(ino)` returns exactly the metadata keys of the
  // inode, its open handles included.
  lemma InodeMetadataRangeIsExact(prefix: Bytes, ino: U64, key: Key)
    requires ino + 1 < U64_LIMIT
    ensures var first, end := Build(prefix, InoKey(ino, Description)), Build(prefix, InoKey(ino + 1, Description));
            InScan(Build(prefix, key), first, end) <==> (key.InoKey? || key.OpenedKey?) && key.ino == ino
  {
    KeyOrder(prefix, key, InoKey(ino, Description));
    KeyOrder(prefix, key, InoKey(ino + 1, Description));
    if key.InoKey? || key.OpenedKey? {
      var tail := if key.InoKey? then [MetaId(key.meta)] else [MetaId(Opened)] + key.instance;
      assert tail[0] >= 0 && |tail| > 0;
      NumberOrder(key.ino, ino, tail, [MetaId(Description)]);
      NumberOrder(key.ino, ino + 1, tail, [MetaId(Description)]);
      NothingBeforeZero(tail, [MetaId(Description)]);
    }
  }

  lemma {:induction false} NothingBeforeZero(tail: Bytes, zero: Bytes)
    requires tail != [] && zero == [0]
    ensures !Before(tail, zero)
  {
    assert zero[1..] == [];
  }

  predicate IsNil(uuid: Uuid) {
    forall i | 0 <= i < UUID_LEN :: uuid[i] == 0
  }

  predicate IsMax(uuid: Uuid) {
    forall i | 0 <= i < UUID_LEN :: uuid[i] == 0xFF
  }

  lemma {:induction false} NilIsLeast(a: Bytes, b: Bytes)
    requires |a| == |b| && forall i | 0 <= i < |b| :: b[i] == 0
    ensures !Before(a, b)
  {
    if a != [] { NilIsLeast(a[1..], b[1..]); }
  }

  lemma {:induction false} MaxIsGreatest(a: Bytes, b: Bytes)
    requires |a| == |b| && forall i | 0 <= i < |b| :: b[i] == 0xFF
    ensures !Before(b, a)
  {
    if a != [] { MaxIsGreatest(a[1..], b[1..]); }
  }

  // The key is returned by the scan for `locked`, from the nil to the maximal owner, and
  // parses as one of its contenders.
  predicate SeenAsContender(prefix: Bytes, locked: Bytes, nil: Uuid, max: Uuid, key: Key) {
    && InClosedScan(Build(prefix, key), Build(prefix, LockKey(locked, nil)), Build(prefix, LockKey(locked, max)))
    && LockOwnerOf(Kind(key), locked, Body(key)).Ok?
  }

  // The bytes of a longer lock key go on from `locked` with anything but the maximal owner.
  predicate Continues(locked: Bytes, max: Uuid, key: Key)
    requires key.LockKey?
  {
    && |key.locked| > |locked| && locked <= key.locked + key.owner
    && (key.locked + key.owner)[|locked|..|locked| + UUID_LEN] != max
  }

  // Where the bytes of a lock key lie in the scan, if they begin with the locked key.
  lemma ScannedAfterLocked(prefix: Bytes, locked: Bytes, nil: Uuid, max: Uuid, key: Key, next: Uuid, rest: Bytes)
    requires IsNil(nil) && IsMax(max) && key.LockKey? && Body(key) == locked + (next + rest)
    ensures InClosedScan(Build(prefix, key), Build(prefix, LockKey(locked, nil)), Build(prefix, LockKey(locked, max)))
       <==> next != max || rest == []
  {
    KeyOrder(prefix, key, LockKey(locked, nil));
    KeyOrder(prefix, LockKey(locked, max), key);
    NeverBeforeItself(locked);
    BeginningsDecide(locked, locked, next + rest, nil);
    BeginningsDecide(locked, locked, max, next + rest);
    assert nil + [] == nil && max + [] == max;
    BeginningsDecide(next, nil, rest, []);
    BeginningsDecide(max, next, [], rest);
    NilIsLeast(next, nil);
    MaxIsGreatest(next, max);
  }

  // A key that parses as a contender begins with the locked key and an owner.
  lemma ContenderBytes(locked: Bytes, key: Key) returns (next: Uuid, rest: Bytes)
    requires LockOwnerOf(Kind(key), locked, Body(key)).Ok?
    ensures key.LockKey? && Body(key) == locked + (next + rest)
  {
    var tail := Rest(Body(key), |locked|);
    next, rest := tail[..UUID_LEN], tail[UUID_LEN..];
    assert Body(key) == locked + tail;
  }

  // Scanning and parsing the lock states of one locked key finds exactly its contenders
  // and the lock keys that continue it.
  lemma LockScanIsExact(prefix: Bytes, locked: Bytes, nil: Uuid, max: Uuid, key: Key)
    requires IsNil(nil) && IsMax(max)
    ensures SeenAsContender(prefix, locked, nil, max, key) <==>
            key.LockKey? && (key.locked == locked || Continues(locked, max, key))
  {
    if key.LockKey? { ContenderParses(locked, max, key); }
    if LockOwnerOf(Kind(key), locked, Body(key)).Ok? {
      var next, rest := ContenderBytes(locked, key);
      ScannedAfterLocked(prefix, locked, nil, max, key, next, rest);
      assert |Body(key)| == |locked| + UUID_LEN + |rest|;
      assert Body(key)[|locked|..|locked| + UUID_LEN] == next;
      if |key.locked| == |locked| { SameBeginning(key.locked, locked, key.owner, next + rest); }
    }
  }

  lemma ContenderParses(locked: Bytes, max: Uuid, key: Key)
    requires key.LockKey?
    ensures key.locked == locked || Continues(locked, max, key) ==> LockOwnerOf(Kind(key), locked, Body(key)).Ok?
  {
    if locked <= key.locked + key.owner { assert Body(key)[..|locked|] == locked; }
  }

  // Among locked keys of one length these are the contenders and nothing else.
  lemma LockScanAtEqualLength(prefix: Bytes, locked: Bytes, nil: Uuid, max: Uuid, key: Key)
    requires IsNil(nil) && IsMax(max) && (key.LockKey? ==> |key.locked| == |locked|)
    ensures var first, last := Build(prefix, LockKey(locked, nil)), Build(prefix, LockKey(locked, max));
            InClosedScan(Build(prefix, key), first, last) <==> key.LockKey? && key.locked == locked
  {
    KeyOrder(prefix, key, LockKey(locked, nil));
    KeyOrder(prefix, LockKey(locked, max), key);
    if key.LockKey? {
      BeginningsDecide(key.locked, locked, key.owner, nil);
      BeginningsDecide(locked, key.locked, max, key.owner);
      NilIsLeast(key.owner, nil);
      MaxIsGreatest(key.owner, max);
      OneComesFirst(key.locked, locked);
      NeverBeforeItself(locked);
    }
  }

  // For instance, a locked key that goes on with sixteen bytes is seen as a contender
  // that does not exist.
  lemma LongerLockKeyIsScanned(prefix: Bytes, locked: Bytes, nil: Uuid, max: Uuid, more: Uuid, owner: Uuid)
    requires IsNil(nil) && IsMax(max) && more != max
    ensures var key := LockKey(locked + more, owner);
            SeenAsContender(prefix, locked, nil, max, key) && LockOwnerOf(Kind(key), locked, Body(key)) == Ok(more)
  {
    var key := LockKey(locked + more, owner);
    LockScanIsExact(prefix, locked, nil, max, key);
    LockRoundTrip(locked, more, owner);
    assert Body(key)[|locked|..|locked| + UUID_LEN] == more;
  }
}
