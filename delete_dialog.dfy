/** The delete-VM dialog: which storage files it offers to delete along with
    the VM, the checkboxes over them, the request it sends, and its
    open/closed and error state. */
module DeleteVm {
  import opened Records
  import StringOrder

  /** A disk of the VM as the VM record's `disks` map holds it. `sourceFile`
      is `source.file`; an absent `readonly` reads as false. */
  datatype VmDisk = VmDisk(target: string, diskType: string, sourceFile: Option<string>, readonly: bool)

  /** The parts of the VM record the dialog reads; `disks` is keyed by target. */
  datatype Vm = Vm(name: string, state: string, disks: map<string, VmDisk>)

  /** One row of the "Delete associated storage files" list. */
  datatype DiskEntry = DiskEntry(target: string, file: string, checked: bool)

  /** What the dialog asks the backend to do. */
  datatype DeletePayload = DeletePayload(destroy: bool, storage: seq<string>)

  /** Only file-backed disks with a source file are offered for deletion. */
  predicate IsDeletable(d: VmDisk)
  {
    d.diskType == "file" && TruthyString(d.sourceFile)
  }

  /** A deletable disk's row, checked unless the disk is read-only. */
  function EntryOf(d: VmDisk): DiskEntry
    requires IsDeletable(d)
  {
    DiskEntry(d.target, d.sourceFile.value, !d.readonly)
  }

  /** The keys among `ks` whose disks are deletable, in the order of `ks`. */
  function DeletableKeys(disks: map<string, VmDisk>, ks: seq<string>): (r: seq<string>)
    requires forall k :: k in ks ==> k in disks
    ensures forall k :: k in r <==> k in ks && IsDeletable(disks[k])
    ensures StringOrder.StrictlySorted(ks) ==> StringOrder.StrictlySorted(r)
  {
    if ks == [] then []
    else
      var init := DeletableKeys(disks, ks[..|ks| - 1]);
      var k := ks[|ks| - 1];
      assert ks == ks[..|ks| - 1] + [k];
      SortedInitBeforeLast(ks[..|ks| - 1], k);
      if IsDeletable(disks[k]) then init + [k] else init
  }

  /** In a sorted list, the part before the last key is sorted and lies
      strictly before that key. */
  lemma SortedInitBeforeLast(init: seq<string>, last: string)
    ensures StringOrder.StrictlySorted(init + [last]) ==>
      StringOrder.StrictlySorted(init) && forall e :: e in init ==> StringOrder.Less(e, last)
  {
    if StringOrder.StrictlySorted(init + [last]) {
      forall e | e in init
        ensures StringOrder.Less(e, last)
      {
        var i :| 0 <= i < |init| && init[i] == e;
        assert (init + [last])[i] == e && (init + [last])[|init|] == last;
      }
      assert forall i :: 0 <= i < |init| ==> init[i] == (init + [last])[i];
    }
  }

  /** The rows pushed for the keys `ks`, visited in order. */
  function EntriesFor(disks: map<string, VmDisk>, ks: seq<string>): seq<DiskEntry>
    requires forall k :: k in ks ==> k in disks
  {
    if ks == [] then []
    else
      var init := EntriesFor(disks, ks[..|ks| - 1]);
      var d := disks[ks[|ks| - 1]];
      if IsDeletable(d) then init + [EntryOf(d)] else init
  }

  /** The constructor's loop: visits the keys in order and pushes a row for
      each deletable disk. */
  method StorageRows(disks: map<string, VmDisk>, ks: seq<string>) returns (rows: seq<DiskEntry>)
    requires forall k :: k in ks ==> k in disks
    ensures rows == EntriesFor(disks, ks)
  {
    rows := [];
    for i := 0 to |ks|
      invariant rows == EntriesFor(disks, ks[..i])
    {
      assert ks[..i + 1][..i] == ks[..i];
      var d := disks[ks[i]];
      if IsDeletable(d) {
        rows := rows + [EntryOf(d)];
      }
    }
    assert ks[..|ks|] == ks;
  }

  /** The rows are exactly the deletable disks' rows, one per deletable key,
      in the order of the keys. */
  lemma {:induction false} EntriesForDeletableKeys(disks: map<string, VmDisk>, ks: seq<string>)
    requires forall k :: k in ks ==> k in disks
    ensures |EntriesFor(disks, ks)| == |DeletableKeys(disks, ks)|
    ensures forall i :: 0 <= i < |EntriesFor(disks, ks)| ==>
      IsDeletable(disks[DeletableKeys(disks, ks)[i]]) &&
      EntriesFor(disks, ks)[i] == EntryOf(disks[DeletableKeys(disks, ks)[i]])
  {
    if ks != [] {
      EntriesForDeletableKeys(disks, ks[..|ks| - 1]);
    }
  }

  /** The storage list is non-empty exactly when the VM has a deletable disk. */
  lemma StorageListNonEmptyIff(disks: map<string, VmDisk>)
    ensures |EntriesFor(disks, StringOrder.SortedEnum(disks.Keys))| > 0 <==>
      exists k :: k in disks && IsDeletable(disks[k])
  {
    var ks := StringOrder.SortedEnum(disks.Keys);
    EntriesForDeletableKeys(disks, ks);
    var dk := DeletableKeys(disks, ks);
    if k :| k in disks && IsDeletable(disks[k]) {
      assert k in dk;
    }
    if |EntriesFor(disks, ks)| > 0 {
      assert dk[0] in dk;
      assert dk[0] in disks && IsDeletable(disks[dk[0]]);
    }
  }

  /** The files of the checked rows, in list order. */
  function CheckedFiles(ds: seq<DiskEntry>): (files: seq<string>)
    ensures |files| <= |ds|
    ensures forall f :: f in files <==> exists d :: d in ds && d.checked && d.file == f
  {
    if ds == [] then []
    else
      var init := CheckedFiles(ds[..|ds| - 1]);
      var last := ds[|ds| - 1];
      assert forall d :: d in ds <==> d in ds[..|ds| - 1] || d == last;
      if last.checked then init + [last.file] else init
  }

  /** With every row unchecked, the request deletes no storage file. */
  lemma {:induction false} CheckedFilesOfAllUnchecked(ds: seq<DiskEntry>)
    requires forall i :: 0 <= i < |ds| ==> !ds[i].checked
    ensures CheckedFiles(ds) == []
  {
    if ds != [] {
      CheckedFilesOfAllUnchecked(ds[..|ds| - 1]);
    }
  }

  /** Setting a row's checkbox decides whether its file is deleted: checked,
      the file is in the request; unchecked, it is not (the rows naming
      distinct files, as the list's React keys require). */
  lemma CheckedFilesAfterSet(ds: seq<DiskEntry>, i: nat, c: bool)
    requires i < |ds|
    requires forall j, k :: 0 <= j < k < |ds| ==> ds[j].file != ds[k].file
    ensures ds[i].file in CheckedFiles(ds[i := ds[i].(checked := c)]) <==> c
  {
    var t := ds[i := ds[i].(checked := c)];
    if c {
      assert t[i] in t;
    }
  }

  /** The boolean state fields `onValueChanged` can set. */
  datatype Field = ShowModal | Destroy

  class DeleteDialog {
    var showModal: bool
    var dialogError: Option<string>
    var disks: seq<DiskEntry>
    var destroy: bool

    /** Opens closed, with no error, forcing the VM off when it runs, and
        with one row per deletable disk in ascending order of key. */
    constructor (vm: Vm)
      ensures !showModal && dialogError == None
      ensures destroy <==> vm.state == "running"
      ensures disks == EntriesFor(vm.disks, StringOrder.SortedEnum(vm.disks.Keys))
    {
      showModal := false;
      dialogError := None;
      destroy := vm.state == "running";
      var ks := StringOrder.SortKeys(vm.disks.Keys);
      var rows := StorageRows(vm.disks, ks);
      disks := rows;
    }

    /** The checkbox of the row at `index` was set to `checked`; a position
        outside the list matches no row and changes nothing. */
    method OnDiskCheckedChanged(index: int, checked: bool)
      modifies this
      ensures 0 <= index < |old(disks)| ==>
        disks == old(disks)[index := old(disks)[index].(checked := checked)]
      ensures !(0 <= index < |old(disks)|) ==> disks == old(disks)
      ensures showModal == old(showModal) && dialogError == old(dialogError) && destroy == old(destroy)
    {
      var ds := disks;
      var i := 0;
      while i < |ds|
        invariant 0 <= i <= |ds| && |ds| == |disks|
        invariant forall j :: 0 <= j < |ds| ==>
          ds[j] == if j == index && j < i then disks[j].(checked := checked) else disks[j]
      {
        if i == index {
          ds := ds[i := ds[i].(checked := checked)];
        }
        i := i + 1;
      }
      disks := ds;
    }

    method OnValueChanged(key: Field, value: bool)
      modifies this
      ensures key == ShowModal ==> showModal == value && destroy == old(destroy)
      ensures key == Destroy ==> destroy == value && showModal == old(showModal)
      ensures dialogError == old(dialogError) && disks == old(disks)
    {
      match key
      case ShowModal => showModal := value;
      case Destroy => destroy := value;
    }

    method DialogErrorSet(text: string)
      modifies this
      ensures dialogError == Some(text)
      ensures showModal == old(showModal) && disks == old(disks) && destroy == old(destroy)
    {
      dialogError := Some(text);
    }

    method DialogErrorDismiss()
      modifies this
      ensures dialogError == None
      ensures showModal == old(showModal) && disks == old(disks) && destroy == old(destroy)
    {
      dialogError := None;
    }

    /** Hides the dialog and clears its error; nothing else changes, so a
        second close leaves the state as the first left it. */
    method Close()
      modifies this
      ensures !showModal && dialogError == None
      ensures disks == old(disks) && destroy == old(destroy)
    {
      showModal := false;
      DialogErrorDismiss();
    }

    method Open()
      modifies this
      ensures showModal
      ensures dialogError == old(dialogError) && disks == old(disks) && destroy == old(destroy)
    {
      showModal := true;
    }

    /** The delete request: the `destroy` flag as it stands and the files of
        the checked rows, in list order. */
    method Save() returns (payload: DeletePayload)
      ensures payload.destroy == destroy
      ensures payload.storage == CheckedFiles(disks)
    {
      var storage := [];
      for i := 0 to |disks|
        invariant storage == CheckedFiles(disks[..i])
      {
        assert disks[..i + 1][..i] == disks[..i];
        if disks[i].checked {
          storage := storage + [disks[i].file];
        }
      }
      assert disks[..|disks|] == disks;
      payload := DeletePayload(destroy, storage);
    }

    /** What the dialog body shows: the caution that the VM will be forced
        off, the storage file list, and the error alert. */
    method Render() returns (caution: bool, storageList: bool, errorAlert: bool)
      ensures caution <==> destroy
      ensures storageList <==> disks != []
      ensures errorAlert <==> TruthyString(dialogError)
    {
      caution := destroy;
      storageList := |disks| > 0;
      errorAlert := TruthyString(dialogError);
    }
  }
}
