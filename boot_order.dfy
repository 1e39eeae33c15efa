/** The boot-order dialog of a virtual machine: one checkable entry per
    boot-capable device, a drag order of row ids, the "takes effect after
    shutdown" warning and the list of devices that saving sends. */
module BootOrder {
  import opened Records
  import Decimal

  /** The kinds of device that can carry `<boot order=…>` in a domain's XML. */
  datatype DeviceKind = Disk | Interface | RedirDev | HostDev

  /** A boot-capable device as the device-listing helper returns it;
      `bootOrder` is the text of its `order` attribute, None when absent. */
  datatype BootDevice = BootDevice(kind: DeviceKind, descriptor: string, bootOrder: Option<string>)

  /** A device with the two properties the dialog adds to it. */
  datatype UIDevice = UIDevice(device: BootDevice, checked: bool, initialOrder: Option<int>)

  /** `u` is what the dialog makes of `d`: checked exactly when `d` has a boot
      order, and `initialOrder` that order parsed as an integer (NaN, here
      None, when it is absent). */
  predicate DerivedFrom(u: UIDevice, d: BootDevice)
  {
    && u.device == d
    && (u.checked <==> d.bootOrder.Some?)
    && u.initialOrder == (if d.bootOrder.Some? then Decimal.ParseInt(d.bootOrder.value) else None)
  }

  /** Adds `checked` and `initialOrder` to every device, keeping their order. */
  method GetUIBootOrderDevices(devs: seq<BootDevice>) returns (ui: seq<UIDevice>)
    ensures |ui| == |devs|
    ensures forall i :: 0 <= i < |devs| ==> DerivedFrom(ui[i], devs[i])
  {
    ui := [];
    for i := 0 to |devs|
      invariant |ui| == i
      invariant forall j :: 0 <= j < i ==> DerivedFrom(ui[j], devs[j])
    {
      var dev := devs[i];
      var order := if dev.bootOrder.Some? then Decimal.ParseInt(dev.bootOrder.value) else None;
      ui := ui + [UIDevice(dev, dev.bootOrder.Some?, order)];
    }
  }

  /** A device whose attribute is the decimal text of `n` starts checked at order `n`. */
  lemma DerivedOrderIsAttribute(u: UIDevice, d: BootDevice, n: nat)
    requires DerivedFrom(u, d) && d.bootOrder == Some(Decimal.ToDecimal(n))
    ensures u.checked && u.initialOrder == Some(n)
  {
    Decimal.ParseIntOfDecimal(n);
  }

  /** The id of the drag row at `index`: `${vmId(name)}-device-row-${index}`. */
  function RowId(vmIdPrefix: string, index: nat): string
  {
    vmIdPrefix + "-device-row-" + Decimal.ToDecimal(index)
  }

  function RowIds(vmIdPrefix: string, n: nat): (ids: seq<string>)
    ensures |ids| == n
  {
    seq(n, i requires 0 <= i < n => RowId(vmIdPrefix, i))
  }

  /** The initial drag order names every row once: its ids are pairwise distinct. */
  lemma RowIdsDistinct(vmIdPrefix: string, n: nat, i: nat, j: nat)
    requires i < j < n
    ensures RowIds(vmIdPrefix, n)[i] != RowIds(vmIdPrefix, n)[j]
  {
    var head := vmIdPrefix + "-device-row-";
    var a, b := Decimal.ToDecimal(i), Decimal.ToDecimal(j);
    if head + a == head + b {
      assert a == (head + a)[|head|..];
      assert b == (head + b)[|head|..];
      Decimal.ToDecimalInjective(i, j);
    }
  }

  /** `s` with the elements at `i` and `j` exchanged. */
  function Swapped<T>(s: seq<T>, i: nat, j: nat): (r: seq<T>)
    requires i < |s| && j < |s|
  {
    s[i := s[j]][j := s[i]]
  }

  /** A drag move only exchanges two rows: the others stay where they were,
      and the order holds the same ids as before. */
  lemma SwappedIsPermutation<T>(s: seq<T>, i: nat, j: nat)
    requires i < |s| && j < |s|
    ensures |Swapped(s, i, j)| == |s|
    ensures Swapped(s, i, j)[i] == s[j] && Swapped(s, i, j)[j] == s[i]
    ensures forall k :: 0 <= k < |s| && k != i && k != j ==> Swapped(s, i, j)[k] == s[k]
    ensures multiset(Swapped(s, i, j)) == multiset(s)
  {
  }

  /** Repeating the same drag move restores the order. */
  lemma SwappedTwice<T>(s: seq<T>, i: nat, j: nat)
    requires i < |s| && j < |s|
    ensures Swapped(Swapped(s, i, j), i, j) == s
  {
  }

  /** `ds` with the checkbox of the entry at `i` flipped. */
  function Toggled(ds: seq<UIDevice>, i: nat): (r: seq<UIDevice>)
    requires i < |ds|
  {
    ds[i := ds[i].(checked := !ds[i].checked)]
  }

  /** Toggling flips `checked` on the toggled entry only. */
  lemma ToggledChangesOnlyThatEntry(ds: seq<UIDevice>, i: nat)
    requires i < |ds|
    ensures |Toggled(ds, i)| == |ds|
    ensures Toggled(ds, i)[i].checked == !ds[i].checked
    ensures Toggled(ds, i)[i].device == ds[i].device
    ensures Toggled(ds, i)[i].initialOrder == ds[i].initialOrder
    ensures forall k :: 0 <= k < |ds| && k != i ==> Toggled(ds, i)[k] == ds[k]
  {
  }

  /** Toggling the same entry twice restores the list. */
  lemma ToggledTwice(ds: seq<UIDevice>, i: nat)
    requires i < |ds|
    ensures Toggled(Toggled(ds, i), i) == ds
  {
  }

  /** Whether the entry at position `index` differs from what the VM's
      configuration holds: it is left unchanged exactly when it is checked at
      the order its position gives it, or unchecked and never ordered (an
      order of 0 counts as never ordered, as JavaScript's `!0` does). */
  function DeviceStateHasChanged(d: UIDevice, index: nat): (changed: bool)
    ensures !changed <==>
      (if d.checked then d.initialOrder == Some(index + 1) else !TruthyInt(d.initialOrder))
  {
    if d.checked && !TruthyInt(d.initialOrder) then true
    else if !d.checked && TruthyInt(d.initialOrder) then true
    else if TruthyInt(d.initialOrder) && d.initialOrder.value != index + 1 then true
    else false
  }

  /** Some entry among the first `n` has changed (`Array.prototype.some`). */
  function SomeChanged(ds: seq<UIDevice>, n: nat): (any: bool)
    requires n <= |ds|
    ensures any <==> exists i :: 0 <= i < n && DeviceStateHasChanged(ds[i], i)
  {
    n > 0 && (SomeChanged(ds, n - 1) || DeviceStateHasChanged(ds[n - 1], n - 1))
  }

  /** The warning that changes take effect after shutting down the VM. */
  function ShowWarning(vmState: string, ds: seq<UIDevice>): (shown: bool)
    ensures shown <==>
      vmState == "running" && exists i :: 0 <= i < |ds| && DeviceStateHasChanged(ds[i], i)
  {
    vmState == "running" && SomeChanged(ds, |ds|)
  }

  /** A freshly opened dialog whose devices already carry the orders 1, 2, …
      of their positions (or none) shows no warning. */
  lemma NoWarningWhenOrdersMatchPositions(vmState: string, devs: seq<BootDevice>, ds: seq<UIDevice>)
    requires |ds| == |devs|
    requires forall i :: 0 <= i < |devs| ==> DerivedFrom(ds[i], devs[i])
    requires forall i :: 0 <= i < |devs| ==>
      devs[i].bootOrder.None? || devs[i].bootOrder == Some(Decimal.ToDecimal(i + 1))
    ensures !ShowWarning(vmState, ds)
  {
    forall i | 0 <= i < |ds|
      ensures !DeviceStateHasChanged(ds[i], i)
    {
      if devs[i].bootOrder.Some? {
        DerivedOrderIsAttribute(ds[i], devs[i], i + 1);
      }
    }
  }

  /** The devices saving sends: the checked entries, in list order. */
  function CheckedDevices(ds: seq<UIDevice>): (r: seq<UIDevice>)
    ensures |r| <= |ds|
    ensures forall d :: d in r <==> d in ds && d.checked
  {
    if ds == [] then []
    else if ds[0].checked then [ds[0]] + CheckedDevices(ds[1..])
    else CheckedDevices(ds[1..])
  }

  /** Filtering keeps the relative order: it distributes over concatenation. */
  lemma {:induction false} CheckedDevicesAppend(a: seq<UIDevice>, b: seq<UIDevice>)
    ensures CheckedDevices(a + b) == CheckedDevices(a) + CheckedDevices(b)
  {
    if a == [] {
      assert a + b == b;
    } else {
      assert (a + b)[1..] == a[1..] + b;
      CheckedDevicesAppend(a[1..], b);
    }
  }

  function CountChecked(ds: seq<UIDevice>): nat
  {
    if ds == [] then 0 else (if ds[0].checked then 1 else 0) + CountChecked(ds[1..])
  }

  /** One request entry per checked device. */
  lemma {:induction false} CheckedDevicesCount(ds: seq<UIDevice>)
    ensures |CheckedDevices(ds)| == CountChecked(ds)
  {
    if ds != [] {
      CheckedDevicesCount(ds[1..]);
    }
  }

  lemma {:induction false} CountCheckedSplit(ds: seq<UIDevice>, i: nat)
    requires i < |ds|
    ensures CountChecked(ds) == CountChecked(ds[..i]) + (if ds[i].checked then 1 else 0) + CountChecked(ds[i + 1..])
  {
    if i > 0 {
      CountCheckedSplit(ds[1..], i - 1);
      assert ds[1..][..i - 1] == ds[..i][1..];
      assert ds[1..][i - 1 + 1..] == ds[i + 1..];
    }
  }

  /** Toggling an entry adds it to, or drops it from, what saving sends. */
  lemma ToggleChangesRequestByOne(ds: seq<UIDevice>, i: nat)
    requires i < |ds|
    ensures |CheckedDevices(Toggled(ds, i))| == |CheckedDevices(ds)| + (if ds[i].checked then -1 else 1)
  {
    var t := Toggled(ds, i);
    CheckedDevicesCount(ds);
    CheckedDevicesCount(t);
    CountCheckedSplit(ds, i);
    CountCheckedSplit(t, i);
    assert t[..i] == ds[..i] && t[i + 1..] == ds[i + 1..];
  }

  const SaveErrorText := "Boot order settings could not be saved"

  /** The dialog's state: the entries, the drag order of row ids, and the error shown. */
  class BootOrderModal {
    var devices: seq<UIDevice>
    var deviceOrder: seq<string>
    var dialogError: Option<string>
    var dialogErrorDetail: Option<string>

    /** Opens on `sortedDevices`, the devices the listing helper found in the
        inactive XML, and `vmIdPrefix`, the VM's id prefix. */
    constructor (sortedDevices: seq<BootDevice>, vmIdPrefix: string)
      ensures |devices| == |sortedDevices|
      ensures forall i :: 0 <= i < |devices| ==> DerivedFrom(devices[i], sortedDevices[i])
      ensures deviceOrder == RowIds(vmIdPrefix, |sortedDevices|)
      ensures dialogError == None && dialogErrorDetail == None
    {
      var ds := GetUIBootOrderDevices(sortedDevices);
      var again := GetUIBootOrderDevices(sortedDevices);
      devices := ds;
      deviceOrder := RowIds(vmIdPrefix, |again|);
      dialogError, dialogErrorDetail := None, None;
    }

    /** The drag-and-drop list reports its final order. */
    method OnDragFinish(itemOrder: seq<string>)
      modifies this
      ensures deviceOrder == itemOrder
      ensures devices == old(devices)
      ensures dialogError == old(dialogError) && dialogErrorDetail == old(dialogErrorDetail)
    {
      deviceOrder := itemOrder;
    }

    /** The drag-and-drop list moves a row from `oldIndex` to `newIndex`. */
    method OnDragMove(oldIndex: nat, newIndex: nat)
      requires oldIndex < |deviceOrder| && newIndex < |deviceOrder|
      modifies this
      ensures deviceOrder == Swapped(old(deviceOrder), oldIndex, newIndex)
      ensures devices == old(devices)
      ensures dialogError == old(dialogError) && dialogErrorDetail == old(dialogErrorDetail)
    {
      var itemOrder := deviceOrder;
      var tmp := itemOrder[oldIndex];
      itemOrder := itemOrder[oldIndex := itemOrder[newIndex]];
      itemOrder := itemOrder[newIndex := tmp];
      deviceOrder := itemOrder;
    }

    method DialogErrorSet(text: string, detail: string)
      modifies this
      ensures dialogError == Some(text) && dialogErrorDetail == Some(detail)
      ensures devices == old(devices) && deviceOrder == old(deviceOrder)
    {
      dialogError, dialogErrorDetail := Some(text), Some(detail);
    }

    /** The checkbox of the entry at `index` was clicked. */
    method OnToggleDevice(index: nat)
      requires index < |devices|
      modifies this
      ensures devices == Toggled(old(devices), index)
      ensures deviceOrder == old(deviceOrder)
      ensures dialogError == old(dialogError) && dialogErrorDetail == old(dialogErrorDetail)
    {
      var ds := devices;
      ds := ds[index := ds[index].(checked := !ds[index].checked)];
      devices := ds;
    }

    /** Saving sends the checked entries; `outcome` is how the request ended.
        On success the VM is refreshed and the dialog closed; on failure the
        error is shown and the dialog stays as it was. */
    method Save(outcome: Outcome) returns (request: seq<UIDevice>, refreshAndClose: bool)
      modifies this
      ensures request == CheckedDevices(old(devices))
      ensures refreshAndClose <==> outcome.Success?
      ensures outcome.Failure? ==>
        dialogError == Some(SaveErrorText) && dialogErrorDetail == Some(outcome.message)
      ensures outcome.Success? ==>
        dialogError == old(dialogError) && dialogErrorDetail == old(dialogErrorDetail)
      ensures devices == old(devices) && deviceOrder == old(deviceOrder)
    {
      request := CheckedDevices(devices);
      refreshAndClose := outcome.Success?;
      if outcome.Failure? {
        DialogErrorSet(SaveErrorText, outcome.message);
      }
    }
  }
}
