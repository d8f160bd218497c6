// Directories, parent links and the life of an inode number
// (src/fs/mini_transaction.rs and the unlink path of
// src/fs/hash_fs_tikv_implementation.rs).
//
// A directory entry is stored twice: under its place and under its inode.  Every
// transaction is one serializable step; one that ends in an error is rolled back.
module Directory {
  import opened Types

  type Name = seq<Byte>

  datatype ItemKind = File | Directory | Symlink

  datatype Item = Item(ino: Ino, kind: ItemKind)

  datatype Place = Place(parent: Ino, name: Name)

  datatype Link = Link(ino: Ino, place: Place)

  datatype Tree = Tree(
    entries: map<Place, Item>,
    links: set<Link>,
    descs: map<Ino, Item>,
    inodeNext: Option<Ino>)

  const ROOT_INODE: Ino := 1
  const OPENED_INODE_PARENT_INODE: Ino := 2
  const FIRST_DATA_INODE: Ino := 10

  datatype FsError =
    | FileNotFound
    | WrongFileType
    | DirNotEmpty
    | FileExist
    | MissingInode
    | CloseFailedDueToWrongInoOrUseId

  datatype GotOrMade = ExistedAlready(item: Item) | NewlyCreated(item: Item)

  // What a transaction leaves in its write buffer, and what it returns.
  datatype Outcome<+T> = Outcome(tree: Tree, result: Result<T, FsError>)

  // ---------------------------------------------------------------------------
  // The transactions

  function AddLink(t: Tree, place: Place, item: Item): Tree {
    t.(entries := t.entries[place := item], links := t.links + {Link(item.ino, place)})
  }

  function AddExisting(t: Tree, place: Place, ino: Ino): Outcome<GotOrMade> {
    if place in t.entries then Outcome(t, Ok(ExistedAlready(t.entries[place])))
    else if ino !in t.descs then Outcome(t, Err(MissingInode))
    else
      var item := Item(ino, t.descs[ino].kind);
      Outcome(AddLink(t, place, item), Ok(NewlyCreated(item)))
  }

  function AddNew(t: Tree, place: Place, kind: ItemKind, newIno: Ino): Outcome<GotOrMade> {
    if place in t.entries then Outcome(t, Ok(ExistedAlready(t.entries[place])))
    else
      var item := Item(newIno, kind);
      Outcome(AddLink(t.(descs := t.descs[newIno := item]), place, item), Ok(NewlyCreated(item)))
  }

  function RemoveLinks(t: Tree, place: Place, child: Ino): Tree {
    t.(entries := t.entries - {place}, links := t.links - {Link(child, place)})
  }

  function RemoveChild(t: Tree, place: Place, allowed: set<ItemKind>): Outcome<Item> {
    if place !in t.entries then Outcome(t, Err(FileNotFound))
    else if t.entries[place].kind !in allowed then Outcome(t, Err(WrongFileType))
    else Outcome(RemoveLinks(t, place, t.entries[place].ino), Ok(t.entries[place]))
  }

  predicate HasChildren(t: Tree, dir: Ino) {
    exists place | place in t.entries :: place.parent == dir
  }

  function RemoveEmptyDirectory(t: Tree, place: Place): Outcome<Item> {
    if place !in t.entries then Outcome(t, Err(FileNotFound))
    else if t.entries[place].kind != Directory then Outcome(t, Err(WrongFileType))
    else if HasChildren(t, t.entries[place].ino) then Outcome(t, Err(DirNotEmpty))
    else Outcome(RemoveLinks(t, place, t.entries[place].ino), Ok(t.entries[place]))
  }

  // Whether the new entry was made is not looked at.
  function Rename(t: Tree, place: Place, newPlace: Place): Outcome<()> {
    if place !in t.entries then Outcome(t, Err(FileNotFound))
    else
      var item := t.entries[place];
      var added := AddExisting(t, newPlace, item.ino);
      if added.result.Err? then Outcome(added.tree, Err(added.result.error))
      else
        var removed := RemoveChild(added.tree, place, {item.kind});
        Outcome(removed.tree, if removed.result.Err? then Err(removed.result.error) else Ok(()))
  }

  function Usages(t: Tree, ino: Ino): set<Link> {
    set l | l in t.links && l.ino == ino
  }

  datatype DeletionCheckResult = DeletedInoDesc | StillUsed

  function CheckForDelete(t: Tree, ino: Ino): Outcome<DeletionCheckResult> {
    if Usages(t, ino) == {} then Outcome(t.(descs := t.descs - {ino}), Ok(DeletedInoDesc))
    else Outcome(t, Ok(StillUsed))
  }

  // An open handle is an entry of a hidden directory.
  function HandlePlace(useId: Name): Place {
    Place(OPENED_INODE_PARENT_INODE, useId)
  }

  function OpenInode(t: Tree, ino: Ino, useId: Name): Outcome<()> {
    if ino !in t.descs then Outcome(t, Err(MissingInode))
    else
      var added := AddExisting(t, HandlePlace(useId), t.descs[ino].ino);
      if added.result.Err? then Outcome(added.tree, Err(added.result.error))
      else if added.result.value.ExistedAlready? then Outcome(added.tree, Err(FileExist))
      else Outcome(added.tree, Ok(()))
  }

  function CloseInode(t: Tree, ino: Ino, useId: Name): Outcome<()> {
    var removed := RemoveChild(t, HandlePlace(useId), {Directory, File, Symlink});
    if removed.result.Err? then Outcome(removed.tree, Err(removed.result.error))
    else if removed.result.value.ino != ino then Outcome(removed.tree, Err(CloseFailedDueToWrongInoOrUseId))
    else Outcome(removed.tree, Ok(()))
  }

  // The first call on a fresh file system sets up the counter and gives out the root.
  function ReserveIno(t: Tree): Outcome<Ino> {
    if t.inodeNext.None? then Outcome(t.(inodeNext := Some(FIRST_DATA_INODE)), Ok(ROOT_INODE))
    else Outcome(t.(inodeNext := Some(t.inodeNext.value + 1)), Ok(t.inodeNext.value))
  }

  // Commit or roll back.
  function Finished<T>(t: Tree, outcome: Outcome<T>): Tree {
    if outcome.result.Ok? then outcome.tree else t
  }

  // The same, on a transaction's write buffer.
  class StartedMiniTransaction {
    var committed: Tree
    var entries: map<Place, Item>
    var links: set<Link>
    var descs: map<Ino, Item>
    var inodeNext: Option<Ino>

    function View(): Tree
      reads this
    {
      Tree(entries, links, descs, inodeNext)
    }

    constructor (committed: Tree)
      ensures this.committed == committed && View() == committed
    {
      this.committed := committed;
      entries, links, descs, inodeNext := committed.entries, committed.links, committed.descs, committed.inodeNext;
    }

    method Finish<T>(result: Result<T, FsError>)
      modifies this
      ensures committed == View() == Finished(old(committed), Outcome(old(View()), result))
    {
      if result.Ok? {
        committed := Tree(entries, links, descs, inodeNext);
      } else {
        entries, links, descs, inodeNext := committed.entries, committed.links, committed.descs, committed.inodeNext;
      }
    }

    method MetaMutableReserveNewIno() returns (ino: Ino)
      modifies `inodeNext
      ensures ReserveIno(old(View())) == Outcome(View(), Ok(ino))
    {
      if inodeNext.None? {
        inodeNext := Some(FIRST_DATA_INODE);
        return ROOT_INODE;
      }
      ino := inodeNext.value;
      inodeNext := Some(ino + 1);
    }

    method DirectoryGetChild(place: Place) returns (item: Option<Item>)
      ensures item == if place in entries then Some(entries[place]) else None
    {
      item := if place in entries then Some(entries[place]) else None;
    }

    method DirectoryAddChildLinkUnchecked(place: Place, item: Item)
      modifies `entries, `links
      ensures View() == AddLink(old(View()), place, item)
    {
      links := links + {Link(item.ino, place)};
      entries := entries[place := item];
    }

    method DirectoryAddChildCheckedExistingInode(place: Place, ino: Ino) returns (r: Result<GotOrMade, FsError>)
      modifies `entries, `links
      ensures AddExisting(old(View()), place, ino) == Outcome(View(), r)
    {
      var existing := DirectoryGetChild(place);
      if existing.Some? { return Ok(ExistedAlready(existing.value)); }
      if ino !in descs { return Err(MissingInode); }
      var item := Item(ino, descs[ino].kind);
      DirectoryAddChildLinkUnchecked(place, item);
      r := Ok(NewlyCreated(item));
    }

    method DirectoryAddChildCheckedNewInode(
        place: Place, kind: ItemKind, newIno: Ino)
      returns (r: Result<GotOrMade, FsError>)
      modifies `entries, `links, `descs
      ensures AddNew(old(View()), place, kind, newIno) == Outcome(View(), r)
    {
      var existing := DirectoryGetChild(place);
      if existing.Some? { return Ok(ExistedAlready(existing.value)); }
      var item := Item(newIno, kind);
      descs := descs[newIno := item];
      entries := entries[place := item];
      links := links + {Link(newIno, place)};
      r := Ok(NewlyCreated(item));
    }

    method DirectoryRemoveChildLinksUnchecked(place: Place, child: Ino)
      modifies `entries, `links
      ensures View() == RemoveLinks(old(View()), place, child)
    {
      entries := entries - {place};
      links := links - {Link(child, place)};
    }

    method DirectoryRemoveChild(place: Place, allowed: set<ItemKind>) returns (r: Result<Item, FsError>)
      modifies `entries, `links
      ensures RemoveChild(old(View()), place, allowed) == Outcome(View(), r)
    {
      var child := DirectoryGetChild(place);
      if child.None? { return Err(FileNotFound); }
      if child.value.kind !in allowed { return Err(WrongFileType); }
      DirectoryRemoveChildLinksUnchecked(place, child.value.ino);
      r := Ok(child.value);
    }

    method DirectoryRemoveChildEmptyDirectory(place: Place) returns (r: Result<Item, FsError>)
      modifies `entries, `links
      ensures RemoveEmptyDirectory(old(View()), place) == Outcome(View(), r)
    {
      var child := DirectoryGetChild(place);
      if child.None? { return Err(FileNotFound); }
      if child.value.kind != Directory { return Err(WrongFileType); }
      var children := set p | p in entries && p.parent == child.value.ino;
      if |children| > 0 {
        assert exists p :: p in children;
        return Err(DirNotEmpty);
      }
      assert forall p | p in entries && p.parent == child.value.ino :: p in children;
      DirectoryRemoveChildLinksUnchecked(place, child.value.ino);
      r := Ok(child.value);
    }

    method DirectoryRenameChild(place: Place, newPlace: Place) returns (r: Result<(), FsError>)
      modifies `entries, `links
      ensures Rename(old(View()), place, newPlace) == Outcome(View(), r)
    {
      var item := DirectoryGetChild(place);
      if item.None? { return Err(FileNotFound); }
      var added := DirectoryAddChildCheckedExistingInode(newPlace, item.value.ino);
      if added.Err? { return Err(added.error); }
      var removed := DirectoryRemoveChild(place, {item.value.kind});
      if removed.Err? { return Err(removed.error); }
      r := Ok(());
    }

    method InodeCheckForDeleteAndDeleteAtomicallyDescription(ino: Ino) returns (r: Result<DeletionCheckResult, FsError>)
      modifies `descs
      ensures CheckForDelete(old(View()), ino) == Outcome(View(), r)
    {
      var usages := set l | l in links && l.ino == ino;
      assert usages == Usages(View(), ino);
      if |usages| == 0 {
        descs := descs - {ino};
        return Ok(DeletedInoDesc);
      }
      r := Ok(StillUsed);
    }

    method InodeOpen(ino: Ino, useId: Name) returns (r: Result<(), FsError>)
      modifies `entries, `links
      ensures OpenInode(old(View()), ino, useId) == Outcome(View(), r)
    {
      if ino !in descs { return Err(MissingInode); }
      var added := DirectoryAddChildCheckedExistingInode(HandlePlace(useId), descs[ino].ino);
      if added.Err? { return Err(added.error); }
      if added.value.ExistedAlready? { return Err(FileExist); }
      r := Ok(());
    }

    method InodeClose(ino: Ino, useId: Name) returns (r: Result<(), FsError>)
      modifies `entries, `links
      ensures CloseInode(old(View()), ino, useId) == Outcome(View(), r)
    {
      var removed := DirectoryRemoveChild(HandlePlace(useId), {Directory, File, Symlink});
      if removed.Err? { return Err(removed.error); }
      if removed.value.ino != ino { return Err(CloseFailedDueToWrongInoOrUseId); }
      r := Ok(());
    }
  }

  // ---------------------------------------------------------------------------
  // Runs

  // `reserved` inode numbers were given out and not used yet, `unlinked` ones await
  // their deletion check, `cleared` ones passed it: their blocks are being cleared.
  datatype Run = Run(tree: Tree, reserved: set<Ino>, unlinked: set<Ino>, cleared: set<Ino>)

  const Fresh := Run(Tree(map[], {}, map[], None), {}, {}, {})

  datatype Event =
    | Reserve
    | Create(place: Place, kind: ItemKind, ino: Ino)
    | LinkTo(place: Place, ino: Ino)
    | Unlink(place: Place)
    | CheckDelete(ino: Ino)
    | Rmdir(place: Place)
    | Move(place: Place, newPlace: Place)
    | Open(ino: Ino, useId: Name)
    | Close(ino: Ino, useId: Name)

  function Step(r: Run, e: Event): Run {
    match e
    case Reserve =>
      var o := ReserveIno(r.tree);
      r.(tree := o.tree, reserved := r.reserved + {o.result.value})
    case Create(place, kind, ino) =>
      if ino in r.reserved
      then r.(tree := Finished(r.tree, AddNew(r.tree, place, kind, ino)), reserved := r.reserved - {ino})
      else r
    case LinkTo(place, ino) =>
      // Nothing is linked below the parent of the root, and no error is reported.
      if place.parent < ROOT_INODE then r
      else r.(tree := Finished(r.tree, AddExisting(r.tree, place, ino)))
    case Unlink(place) =>
      var o := RemoveChild(r.tree, place, {File, Symlink});
      if o.result.Err? then r else r.(tree := o.tree, unlinked := r.unlinked + {o.result.value.ino})
    case CheckDelete(ino) =>
      if ino !in r.unlinked then r
      else
        var o := CheckForDelete(r.tree, ino);
        r.(tree := o.tree, cleared := if o.result.value.DeletedInoDesc? then r.cleared + {ino} else r.cleared)
    case Rmdir(place) => r.(tree := Finished(r.tree, RemoveEmptyDirectory(r.tree, place)))
    case Move(place, newPlace) => r.(tree := Finished(r.tree, Rename(r.tree, place, newPlace)))
    case Open(ino, useId) => r.(tree := Finished(r.tree, OpenInode(r.tree, ino, useId)))
    case Close(ino, useId) => r.(tree := Finished(r.tree, CloseInode(r.tree, ino, useId)))
  }

  function Exec(r: Run, events: seq<Event>): Run {
    if events == [] then r else Step(Exec(r, events[..|events| - 1]), events[|events| - 1])
  }

  // ---------------------------------------------------------------------------
  // What every step keeps

  // An entry exists exactly if its parent link does.
  ghost predicate IndexesAgree(t: Tree) {
    forall ino: Ino, place :: (place in t.entries && t.entries[place].ino == ino) <==> Link(ino, place) in t.links
  }

  // An entry has the kind of the inode, as long as the inode is described.
  ghost predicate KindsAgree(t: Tree) {
    && (forall place | place in t.entries && t.entries[place].ino in t.descs ::
          t.entries[place].kind == t.descs[t.entries[place].ino].kind)
    && (forall ino | ino in t.descs :: t.descs[ino].ino == ino)
  }

  predicate Referred(t: Tree, ino: Ino) {
    exists place | place in t.entries :: t.entries[place].ino == ino
  }

  predicate InUse(t: Tree, ino: Ino) {
    ino in t.descs || Referred(t, ino)
  }

  // The number was given out before.
  predicate Issued(t: Tree, ino: Ino) {
    t.inodeNext.Some? && (ino == ROOT_INODE || FIRST_DATA_INODE <= ino < t.inodeNext.value)
  }

  ghost predicate NumbersOk(r: Run) {
    && (forall ino: Ino | InUse(r.tree, ino) || ino in r.reserved + r.unlinked + r.cleared :: Issued(r.tree, ino))
    && (forall ino | ino in r.reserved :: !InUse(r.tree, ino) && ino !in r.unlinked + r.cleared)
    && (forall ino | ino in r.cleared :: !InUse(r.tree, ino))
    && (r.tree.inodeNext.Some? ==> r.tree.inodeNext.value >= FIRST_DATA_INODE)
  }

  ghost predicate Inv(r: Run) {
    IndexesAgree(r.tree) && KindsAgree(r.tree) && NumbersOk(r)
  }

  lemma AddLinkAgrees(t: Tree, place: Place, item: Item)
    requires IndexesAgree(t) && place !in t.entries
    ensures IndexesAgree(AddLink(t, place, item))
  {
  }

  lemma RemoveLinksAgrees(t: Tree, place: Place)
    requires IndexesAgree(t) && place in t.entries
    ensures IndexesAgree(RemoveLinks(t, place, t.entries[place].ino))
  {
  }

  // Every reference in the later tree was there before, or leads to a described inode.
  ghost predicate OnlyDescribedAdded(t: Tree, t': Tree) {
    && t'.inodeNext == t.inodeNext && (forall ino | ino in t'.descs :: ino in t.descs && t'.descs[ino] == t.descs[ino])
    && (forall place | place in t'.entries ::
          || (place in t.entries && t'.entries[place] == t.entries[place])
          || (t'.entries[place].ino in t.descs && t'.entries[place].kind == t.descs[t'.entries[place].ino].kind))
  }

  lemma OnlyDescribedAddedIsOk(r: Run, t': Tree)
    requires KindsAgree(r.tree) && NumbersOk(r) && OnlyDescribedAdded(r.tree, t')
    ensures KindsAgree(t') && NumbersOk(r.(tree := t'))
    ensures forall ino: Ino | InUse(t', ino) :: InUse(r.tree, ino)
  {
    forall ino: Ino | InUse(t', ino) ensures InUse(r.tree, ino) {
      if ino !in t'.descs {
        var place :| place in t'.entries && t'.entries[place].ino == ino;
      }
    }
  }

  lemma AddExistingKeeps(t: Tree, place: Place, ino: Ino)
    requires IndexesAgree(t)
    ensures IndexesAgree(AddExisting(t, place, ino).tree) && OnlyDescribedAdded(t, AddExisting(t, place, ino).tree)
  {
  }

  lemma RemoveChildKeeps(t: Tree, place: Place, allowed: set<ItemKind>)
    requires IndexesAgree(t)
    ensures IndexesAgree(RemoveChild(t, place, allowed).tree)
    ensures OnlyDescribedAdded(t, RemoveChild(t, place, allowed).tree)
  {
    if place in t.entries { RemoveLinksAgrees(t, place); }
  }

  lemma RenameKeeps(t: Tree, place: Place, newPlace: Place)
    requires IndexesAgree(t)
    ensures IndexesAgree(Rename(t, place, newPlace).tree) && OnlyDescribedAdded(t, Rename(t, place, newPlace).tree)
  {
    if place in t.entries {
      var item := t.entries[place];
      AddExistingKeeps(t, newPlace, item.ino);
      RemoveChildKeeps(AddExisting(t, newPlace, item.ino).tree, place, {item.kind});
    }
  }

  lemma ReserveKeepsInv(r: Run)
    requires Inv(r)
    ensures Inv(Step(r, Reserve))
  {
    var o := ReserveIno(r.tree);
    assert !Issued(r.tree, o.result.value);
    assert forall ino: Ino :: InUse(o.tree, ino) <==> InUse(r.tree, ino);
  }

  lemma CreateKeepsInv(r: Run, place: Place, kind: ItemKind, ino: Ino)
    requires Inv(r) && ino in r.reserved
    ensures Inv(Step(r, Create(place, kind, ino)))
  {
    var t' := AddNew(r.tree, place, kind, ino).tree;
    if place !in r.tree.entries {
      AddLinkAgrees(r.tree.(descs := r.tree.descs[ino := Item(ino, kind)]), place, Item(ino, kind));
      assert forall p | p in r.tree.entries :: Referred(r.tree, r.tree.entries[p].ino);
      forall i: Ino | InUse(t', i) ensures i == ino || InUse(r.tree, i) {
        if i !in t'.descs { var p :| p in t'.entries && t'.entries[p].ino == i; }
      }
    }
  }

  // With no parent link left, nothing refers to the inode.
  lemma NoUsageMeansNoReference(t: Tree, ino: Ino)
    requires IndexesAgree(t)
    ensures Usages(t, ino) == {} <==> !Referred(t, ino)
  {
    if place :| place in t.entries && t.entries[place].ino == ino {
      assert Link(ino, place) in Usages(t, ino);
    }
    if l :| l in Usages(t, ino) {
      assert Link(ino, l.place) in t.links;
    }
  }

  lemma CheckDeleteKeepsInv(r: Run, ino: Ino)
    requires Inv(r) && ino in r.unlinked
    ensures Inv(Step(r, CheckDelete(ino)))
  {
    NoUsageMeansNoReference(r.tree, ino);
    OnlyDescribedAddedIsOk(r, CheckForDelete(r.tree, ino).tree);
  }

  lemma StepKeepsInv(r: Run, e: Event)
    requires Inv(r)
    ensures Inv(Step(r, e))
  {
    match e
    case Reserve => ReserveKeepsInv(r);
    case Create(place, kind, ino) => if ino in r.reserved { CreateKeepsInv(r, place, kind, ino); }
    case LinkTo(place, ino) =>
      AddExistingKeeps(r.tree, place, ino);
      OnlyDescribedAddedIsOk(r, AddExisting(r.tree, place, ino).tree);
    case Unlink(place) => UnlinkKeepsInv(r, place);
    case CheckDelete(ino) => if ino in r.unlinked { CheckDeleteKeepsInv(r, ino); }
    case Rmdir(place) =>
      if place in r.tree.entries { RemoveLinksAgrees(r.tree, place); }
      OnlyDescribedAddedIsOk(r, RemoveEmptyDirectory(r.tree, place).tree);
    case Move(place, newPlace) =>
      RenameKeeps(r.tree, place, newPlace);
      OnlyDescribedAddedIsOk(r, Rename(r.tree, place, newPlace).tree);
    case Open(ino, useId) =>
      if ino in r.tree.descs { AddExistingKeeps(r.tree, HandlePlace(useId), ino); }
      OnlyDescribedAddedIsOk(r, OpenInode(r.tree, ino, useId).tree);
    case Close(ino, useId) =>
      RemoveChildKeeps(r.tree, HandlePlace(useId), {Directory, File, Symlink});
      OnlyDescribedAddedIsOk(r, CloseInode(r.tree, ino, useId).tree);
  }

  lemma UnlinkKeepsInv(r: Run, place: Place)
    requires Inv(r)
    ensures Inv(Step(r, Unlink(place)))
  {
    RemoveChildKeeps(r.tree, place, {File, Symlink});
    OnlyDescribedAddedIsOk(r, RemoveChild(r.tree, place, {File, Symlink}).tree);
    if place in r.tree.entries { assert Referred(r.tree, r.tree.entries[place].ino); }
  }

  lemma {:induction false} ExecKeepsInv(r: Run, events: seq<Event>)
    requires Inv(r)
    ensures Inv(Exec(r, events))
  {
    if events != [] {
      ExecKeepsInv(r, events[..|events| - 1]);
      StepKeepsInv(Exec(r, events[..|events| - 1]), events[|events| - 1]);
    }
  }

  // ---------------------------------------------------------------------------
  // What holds after every run on a fresh file system

  // An entry exists exactly if its parent link exists, and it has the kind that the
  // inode is described with.
  lemma {:induction false} DoubleIndexAgreement(events: seq<Event>, ino: Ino, place: Place)
    ensures var t := Exec(Fresh, events).tree;
            && ((place in t.entries && t.entries[place].ino == ino) <==> Link(ino, place) in t.links)
            && (place in t.entries && t.entries[place].ino in t.descs ==>
                  t.entries[place].kind == t.descs[t.entries[place].ino].kind)
  {
    ExecKeepsInv(Fresh, events);
  }

  // A deletion check removes the description exactly when no directory entry and no
  // open handle leads to the inode.
  lemma {:induction false} DeletedExactlyWhenUnreferred(events: seq<Event>, ino: Ino)
    ensures var t := Exec(Fresh, events).tree;
            CheckForDelete(t, ino).result == Ok(DeletedInoDesc) <==>
            forall place | place in t.entries :: t.entries[place].ino != ino
  {
    ExecKeepsInv(Fresh, events);
    NoUsageMeansNoReference(Exec(Fresh, events).tree, ino);
  }

  lemma {:induction false} ClearedOnlyGrows(r: Run, events: seq<Event>)
    ensures r.cleared <= Exec(r, events).cleared
  {
    if events != [] { ClearedOnlyGrows(r, events[..|events| - 1]); }
  }

  // Once an inode's blocks may be cleared, no later step makes it reachable again or
  // describes it again.
  lemma {:induction false} DeletionSafety(events: seq<Event>, later: seq<Event>, ino: Ino)
    requires ino in Exec(Fresh, events).cleared
    ensures var t := Exec(Exec(Fresh, events), later).tree;
            ino !in t.descs && forall place | place in t.entries :: t.entries[place].ino != ino
  {
    var r := Exec(Fresh, events);
    ExecKeepsInv(Fresh, events);
    ExecKeepsInv(r, later);
    ClearedOnlyGrows(r, later);
    var t := Exec(r, later).tree;
    assert !InUse(t, ino);
    assert forall place | place in t.entries :: Referred(t, t.entries[place].ino);
  }

  lemma {:induction false} IssuedStaysIssued(r: Run, events: seq<Event>, ino: Ino)
    requires Inv(r) && Issued(r.tree, ino)
    ensures Issued(Exec(r, events).tree, ino)
  {
    if events != [] {
      var n := |events| - 1;
      IssuedStaysIssued(r, events[..n], ino);
      NextOnlyGrows(Exec(r, events[..n]), events[n]);
    }
  }

  lemma NextOnlyGrows(r: Run, e: Event)
    requires r.tree.inodeNext.Some?
    ensures Step(r, e).tree.inodeNext.Some? && Step(r, e).tree.inodeNext.value >= r.tree.inodeNext.value
  {
  }

  // No number is given out twice.
  lemma {:induction false} ReservationsAreDistinct(events: seq<Event>, between: seq<Event>)
    ensures var r := Exec(Fresh, events);
            ReserveIno(r.tree).result != ReserveIno(Exec(Step(r, Reserve), between).tree).result
  {
    var r := Exec(Fresh, events);
    ExecKeepsInv(Fresh, events);
    StepKeepsInv(r, Reserve);
    ExecKeepsInv(Step(r, Reserve), between);
    var ino := ReserveIno(r.tree).result.value;
    assert Issued(Step(r, Reserve).tree, ino);
    IssuedStaysIssued(Step(r, Reserve), between, ino);
  }

  // ---------------------------------------------------------------------------
  // What each operation does

  // Exactly this entry and its parent link are new.
  ghost predicate Adds(t: Tree, t': Tree, place: Place, item: Item) {
    && place !in t.entries && t'.entries == t.entries[place := item]
    && t'.links == t.links + {Link(item.ino, place)} && t'.inodeNext == t.inodeNext
  }

  // Exactly this entry and its parent link are gone, and the inode keeps its description.
  ghost predicate Removes(t: Tree, t': Tree, place: Place) {
    && place in t.entries && t'.entries == t.entries - {place}
    && t'.links == t.links - {Link(t.entries[place].ino, place)} && t'.descs == t.descs && t'.inodeNext == t.inodeNext
  }

  // A new item can be found under its name, with its kind; a taken name is left alone.
  lemma CreateMakesFindable(r: Run, place: Place, kind: ItemKind, ino: Ino)
    requires ino in r.reserved
    ensures var r', t, item := Step(r, Create(place, kind, ino)), r.tree, Item(ino, kind);
            && r' == r.(tree := r'.tree, reserved := r.reserved - {ino})
            && (place in t.entries ==> r'.tree == t)
            && (place !in t.entries ==> Adds(t, r'.tree, place, item) && r'.tree.descs == t.descs[ino := item])
    ensures AddNew(r.tree, place, kind, ino).result ==
            Ok(if place in r.tree.entries then ExistedAlready(r.tree.entries[place]) else NewlyCreated(Item(ino, kind)))
  {
  }

  // So can a further name of a described inode; otherwise nothing happens.
  lemma LinkMakesFindableIff(r: Run, place: Place, ino: Ino)
    ensures var r', t := Step(r, LinkTo(place, ino)), r.tree;
            var named := place.parent >= ROOT_INODE && place !in t.entries && ino in t.descs;
            && r' == r.(tree := r'.tree)
            && (named ==> Adds(t, r'.tree, place, Item(ino, t.descs[ino].kind)) && r'.tree.descs == t.descs)
            && (!named ==> r'.tree == t)
    ensures var t, result := r.tree, AddExisting(r.tree, place, ino).result;
            && (result == Err(MissingInode) <==> place !in t.entries && ino !in t.descs)
            && (place in t.entries ==> result == Ok(ExistedAlready(t.entries[place])))
            && (place !in t.entries && ino in t.descs ==> result == Ok(NewlyCreated(Item(ino, t.descs[ino].kind))))
  {
  }

  // Unlinking removes the name of a file or symlink, and nothing else.
  lemma UnlinkRemovesIff(r: Run, place: Place)
    ensures var r', t := Step(r, Unlink(place)), r.tree;
            var removed := place in t.entries && t.entries[place].kind != Directory;
            && (removed ==> Removes(t, r'.tree, place))
            && (removed ==> r' == r.(tree := r'.tree, unlinked := r.unlinked + {t.entries[place].ino}))
            && (!removed ==> r' == r)
    ensures var t, result := r.tree, RemoveChild(r.tree, place, {File, Symlink}).result;
            && (result == Err(FileNotFound) <==> place !in t.entries)
            && (result == Err(WrongFileType) <==> place in t.entries && t.entries[place].kind == Directory)
  {
  }

  // Removing a directory removes its name exactly when it is a directory without children.
  lemma RmdirRemovesIffEmpty(r: Run, place: Place)
    ensures var r', t := Step(r, Rmdir(place)), r.tree;
            && r' == r.(tree := r'.tree)
            && (Removes(t, r'.tree, place) <==>
                  place in t.entries && t.entries[place].kind == Directory &&
                  forall p | p in t.entries :: p.parent != t.entries[place].ino)
            && (r'.tree == t || Removes(t, r'.tree, place))
    ensures var t, result := r.tree, RemoveEmptyDirectory(r.tree, place).result;
            && (result == Err(FileNotFound) <==> place !in t.entries)
            && (result == Err(WrongFileType) <==> place in t.entries && t.entries[place].kind != Directory)
            && (result == Err(DirNotEmpty) <==> place in t.entries && t.entries[place].kind == Directory &&
                                                exists p | p in t.entries :: p.parent == t.entries[place].ino)
  {
  }

  // Opening leaves a handle exactly when the inode is described and the identifier is free.
  lemma OpenLeavesHandleIff(r: Run, ino: Ino, useId: Name)
    requires KindsAgree(r.tree)
    ensures var r', t, handle := Step(r, Open(ino, useId)), r.tree, HandlePlace(useId);
            && r' == r.(tree := r'.tree)
            && (ino in t.descs && handle !in t.entries ==>
                  Adds(t, r'.tree, handle, t.descs[ino]) && r'.tree.descs == t.descs && Referred(r'.tree, ino))
            && (ino !in t.descs || handle in t.entries ==> r' == r)
    ensures var t, result := r.tree, OpenInode(r.tree, ino, useId).result;
            && (result == Ok(()) <==> ino in t.descs && HandlePlace(useId) !in t.entries)
            && (result == Err(MissingInode) <==> ino !in t.descs)
            && (result == Err(FileExist) <==> ino in t.descs && HandlePlace(useId) in t.entries)
  {
    if ino in r.tree.descs && HandlePlace(useId) !in r.tree.entries {
      var t' := Step(r, Open(ino, useId)).tree;
      assert t'.entries[HandlePlace(useId)] == r.tree.descs[ino];
    }
  }

  // Closing removes the handle exactly when it is one of this inode.
  lemma CloseRemovesHandleIff(r: Run, ino: Ino, useId: Name)
    ensures var r', t, handle := Step(r, Close(ino, useId)), r.tree, HandlePlace(useId);
            && r' == r.(tree := r'.tree)
            && (handle in t.entries && t.entries[handle].ino == ino ==> Removes(t, r'.tree, handle))
            && (handle !in t.entries || t.entries[handle].ino != ino ==> r' == r)
    ensures var t, handle, result := r.tree, HandlePlace(useId), CloseInode(r.tree, ino, useId).result;
            && (result == Ok(()) <==> handle in t.entries && t.entries[handle].ino == ino)
            && (result == Err(FileNotFound) <==> handle !in t.entries)
            && (result == Err(CloseFailedDueToWrongInoOrUseId) <==> handle in t.entries && t.entries[handle].ino != ino)
  {
    if HandlePlace(useId) in r.tree.entries {
      match r.tree.entries[HandlePlace(useId)].kind
      case File =>
      case Directory =>
      case Symlink =>
    }
  }

  // A deletion check of an unlinked inode removes its description and nothing else, or
  // changes nothing.
  lemma CheckDeleteRemovesIff(r: Run, ino: Ino)
    requires Inv(r) && ino in r.unlinked
    ensures var r', used := Step(r, CheckDelete(ino)), Referred(r.tree, ino);
            && (used ==> r' == r)
            && (!used ==> r' == r.(tree := r.tree.(descs := r.tree.descs - {ino}), cleared := r.cleared + {ino}))
  {
    NoUsageMeansNoReference(r.tree, ino);
  }

  // ---------------------------------------------------------------------------
  // How long names and descriptions last

  // The events that may take the name away.
  predicate TakesAway(e: Event, place: Place) {
    match e
    case Unlink(p) => p == place
    case Rmdir(p) => p == place
    case Move(p, _) => p == place
    case Close(_, useId) => HandlePlace(useId) == place
    case _ => false
  }

  lemma NameStays(r: Run, e: Event, place: Place)
    requires place in r.tree.entries && !TakesAway(e, place)
    ensures Lookup(Step(r, e).tree.entries, place) == Some(r.tree.entries[place])
  {
  }

  // A described inode that anything refers to stays described.
  lemma ReferredStaysDescribed(r: Run, e: Event, ino: Ino)
    requires Inv(r) && ino in r.tree.descs && Referred(r.tree, ino)
    ensures Lookup(Step(r, e).tree.descs, ino) == Some(r.tree.descs[ino])
  {
    NoUsageMeansNoReference(r.tree, ino);
    if e.Create? && e.ino in r.reserved { assert !InUse(r.tree, e.ino); }
  }

  // In every run a name and the description it leads to last until the name is taken away.
  lemma {:induction false} NameLasts(r: Run, later: seq<Event>, place: Place)
    requires Inv(r) && place in r.tree.entries && r.tree.entries[place].ino in r.tree.descs
    requires forall e | e in later :: !TakesAway(e, place)
    ensures var t, item := Exec(r, later).tree, r.tree.entries[place];
            Lookup(t.entries, place) == Some(item) && Lookup(t.descs, item.ino) == Some(r.tree.descs[item.ino])
  {
    if later != [] {
      var front, e := later[..|later| - 1], later[|later| - 1];
      NameLasts(r, front, place);
      ExecKeepsInv(r, front);
      var before := Exec(r, front);
      NameStays(before, e, place);
      assert Referred(before.tree, r.tree.entries[place].ino);
      ReferredStaysDescribed(before, e, r.tree.entries[place].ino);
    }
  }

  // What was created under a free name is found there, described, until the name is taken
  // away.
  lemma {:induction false} CreatedLasts(events: seq<Event>, later: seq<Event>, place: Place, kind: ItemKind, ino: Ino)
    requires ino in Exec(Fresh, events).reserved && place !in Exec(Fresh, events).tree.entries
    requires forall e | e in later :: !TakesAway(e, place)
    ensures var t := Exec(Step(Exec(Fresh, events), Create(place, kind, ino)), later).tree;
            Lookup(t.entries, place) == Some(Item(ino, kind)) && Lookup(t.descs, ino) == Some(Item(ino, kind))
  {
    var r := Exec(Fresh, events);
    ExecKeepsInv(Fresh, events);
    StepKeepsInv(r, Create(place, kind, ino));
    CreateMakesFindable(r, place, kind, ino);
    NameLasts(Step(r, Create(place, kind, ino)), later, place);
  }

  // An open file is kept until its handle is closed, even if all its names are unlinked.
  lemma {:induction false} OpenFileLasts(events: seq<Event>, later: seq<Event>, ino: Ino, useId: Name)
    requires var t := Exec(Fresh, events).tree; ino in t.descs && HandlePlace(useId) !in t.entries
    requires forall e | e in later :: !TakesAway(e, HandlePlace(useId))
    ensures var r := Exec(Step(Exec(Fresh, events), Open(ino, useId)), later);
            ino in r.tree.descs && ino !in r.cleared
  {
    var r := Exec(Fresh, events);
    ExecKeepsInv(Fresh, events);
    StepKeepsInv(r, Open(ino, useId));
    OpenLeavesHandleIff(r, ino, useId);
    var r' := Step(r, Open(ino, useId));
    NameLasts(r', later, HandlePlace(useId));
    ExecKeepsInv(r', later);
    assert InUse(Exec(r', later).tree, ino);
  }

  function Reservations(events: seq<Event>): nat {
    if events == [] then 0
    else Reservations(events[..|events| - 1]) + if events[|events| - 1].Reserve? then 1 else 0
  }

  // The first number given out is the root's, the others follow one another.
  lemma {:induction false} NumbersInTurn(events: seq<Event>)
    ensures var t, n := Exec(Fresh, events).tree, Reservations(events);
            && t.inodeNext == (if n == 0 then None else Some(FIRST_DATA_INODE + (n - 1)))
            && ReserveIno(t).result == Ok(if n == 0 then ROOT_INODE else FIRST_DATA_INODE + (n - 1))
  {
    if events != [] { NumbersInTurn(events[..|events| - 1]); }
  }

  // ---------------------------------------------------------------------------
  // Renaming

  // What a rename is meant to do: one entry moves, all others stay.
  function Moved(entries: map<Place, Item>, place: Place, newPlace: Place): map<Place, Item>
    requires place in entries
  {
    (entries - {place})[newPlace := entries[place]]
  }

  // A successful rename moves exactly one entry if and only if the new name was free
  // (or was another name of the same inode); otherwise the old name is just removed.
  lemma RenameMovesIffFree(t: Tree, place: Place, newPlace: Place)
    requires IndexesAgree(t) && KindsAgree(t) && Rename(t, place, newPlace).result.Ok?
    ensures place in t.entries
    ensures var t' := Rename(t, place, newPlace).tree;
            && (t'.entries == Moved(t.entries, place, newPlace) <==>
                  newPlace !in t.entries || (newPlace != place && t.entries[newPlace] == t.entries[place]))
            && (newPlace in t.entries ==> t'.entries == t.entries - {place})
            && t'.descs == t.descs
  {
    var t' := Rename(t, place, newPlace).tree;
    var item := t.entries[place];
    if newPlace !in t.entries {
      assert t'.entries == t.entries[newPlace := item] - {place};
    } else if newPlace == place {
      assert place in Moved(t.entries, place, newPlace) && place !in t'.entries;
    } else {
      assert t'.entries[newPlace] == t.entries[newPlace] && Moved(t.entries, place, newPlace)[newPlace] == item;
    }
  }

  // As a step: the entry moves to a free name; a taken name stays and the old one is just
  // removed; a failing rename changes nothing.
  lemma MoveMovesIffFree(r: Run, place: Place, newPlace: Place)
    requires IndexesAgree(r.tree) && KindsAgree(r.tree)
    ensures var r', t := Step(r, Move(place, newPlace)), r.tree;
            && r' == r.(tree := r'.tree)
            && (Rename(t, place, newPlace).result.Err? ==> r' == r)
            && (Rename(t, place, newPlace).result.Ok? && newPlace in t.entries ==> Removes(t, r'.tree, place))
            && (Rename(t, place, newPlace).result.Ok? && newPlace !in t.entries ==>
                  && r'.tree.entries == Moved(t.entries, place, newPlace) && r'.tree.descs == t.descs
                  && r'.tree.links == t.links + {Link(t.entries[place].ino, newPlace)}
                                      - {Link(t.entries[place].ino, place)})
  {
    if Rename(r.tree, place, newPlace).result.Ok? {
      RenameMovesIffFree(r.tree, place, newPlace);
      if newPlace in r.tree.entries { RenameOntoTaken(r.tree, place, newPlace); }
    }
  }

  lemma RenameOntoTaken(t: Tree, place: Place, newPlace: Place)
    requires place in t.entries && newPlace in t.entries
    ensures Rename(t, place, newPlace) == Outcome(RemoveLinks(t, place, t.entries[place].ino), Ok(()))
  {
  }

  // A rename fails exactly when the old name is missing, or the new name is free and
  // the inode is not described.
  lemma RenameFailsIff(t: Tree, place: Place, newPlace: Place)
    ensures Rename(t, place, newPlace).result.Err? <==>
            place !in t.entries || (newPlace !in t.entries && t.entries[place].ino !in t.descs)
  {
  }

  // Renaming an entry onto itself removes it.
  lemma RenameOntoItselfRemoves(t: Tree, place: Place)
    requires place in t.entries
    ensures Rename(t, place, place) == Outcome(RemoveLinks(t, place, t.entries[place].ino), Ok(()))
    ensures place !in Rename(t, place, place).tree.entries
  {
  }
}
