# Virtual machine dialogs of the Cockpit machines page, modelled in Dafny

This project models the list and record logic of four React components of
Cockpit's virtual-machine pages, with rendering and backend calls taken out:

- **Boot order dialog** (`boot_order.dfy`, module `BootOrder`): one
  checkable entry per boot-capable device (`checked` exactly when the device
  has a `<boot order>`, `initialOrder` that order parsed with `parseInt`), a
  drag order of row ids `${vmId}-device-row-${i}`, checkbox toggling,
  drag moves (a swap of two rows) and drag finishes (a new order), the
  "changes take effect after shutting down the VM" warning, and the devices
  that saving sends.
- **Delete VM dialog** (`delete_dialog.dfy`, module `DeleteVm`): the list of
  storage files offered for deletion (file disks with a source file, in
  ascending order of disk key, checked unless read-only), its checkboxes,
  the `{destroy, storage}` request, and the open/closed and error state.
- **Network edit dialog** (`edit_network.dfy`, module `EditNetwork`): the
  four address fields seeded from the first IPv4 and first IPv6 record,
  per-field edits, the error shown when saving fails, and the Edit action
  that mounts the dialog.
- **Network list** (`network_list.dfy`, module `NetworkList`): the guard
  that refuses to re-render while a network has no name, and the rows, one
  per network, after the networks are sorted in place by name.

Shared pieces: `records.dfy` (`undefined` as `Option`, JavaScript
truthiness, the outcome of a backend call, libvirt network records),
`decimal.dfy` (the decimal text of a row index and `parseInt`) and
`string_order.dfy` (the order of `Array.prototype.sort()` without a
comparator, used for `Object.keys(vm.disks).sort()`).

Component state that the source changes with `setState` is a class whose
fields the methods reassign; each such method states the complete new state.
The pure parts (`find`, `filter`, `some`, the change predicate) are
functions. Backend requests (`changeBootOrder`, `deleteVm`,
`changeNetworkSettings`, `getVm`) are not called: a method that sends one
returns the request, and takes how it ended as an `Outcome` parameter
(success, or failure with the exception's message). The results of helpers
defined in other files (`getSortedBootOrderDevices`, `vmId`, `getNetworkRow`)
are parameters. Object identity (`devices.indexOf(device)`, `d == disk`) is
the entry's position in its list.

Behaviour these dialogs do not have, and the model does not add:
- The boot-order entries keep the order the device-listing helper returns;
  nothing here reorders them by declaration or by `initialOrder`.
- A finished drag replaces the order with whatever the list reports; no
  check that it is a permutation of the rows.
- Saving the boot order sends the checked entries themselves; positions are
  not attached to them.
- No dialog guards against a second save while one is in flight.
- The network form sends its whole state, not only the changed fields.
- Closing the delete dialog hides it and clears its error; the checkboxes
  and the `destroy` flag stay as they were.

## Model

| member | source | states |
|---|---|---|
| `BootOrder.GetUIBootOrderDevices` | pkg/machines/components/vm/bootOrderModal.jsx:57-66 | one entry per device, in the same order; each keeps its device, is checked exactly when the device has a boot order, and has as `initialOrder` that order parsed by `parseInt` (NaN when absent) |
| `BootOrder.DerivedOrderIsAttribute` | pkg/machines/components/vm/bootOrderModal.jsx:60-63 | a device whose `order` attribute is the decimal text of `n` starts checked with initial order `n` |
| `Decimal.ParseIntOfDecimal` | pkg/machines/components/vm/bootOrderModal.jsx:62 | `parseInt` reads back every natural number from its decimal text |
| `Decimal.ParseIntNoDigits` | pkg/machines/components/vm/bootOrderModal.jsx:62 | text without digits parses to NaN |
| `Decimal.ToDecimal` | pkg/machines/components/vm/bootOrderModal.jsx:213 | the text of `${index}`: at least one character, only digits, a leading `0` only for zero, one character exactly below ten |
| `Decimal.FromToDecimal` | pkg/machines/components/vm/bootOrderModal.jsx:213 | reading the printed text of a number gives the number back |
| `Decimal.ToDecimalInjective` | pkg/machines/components/vm/bootOrderModal.jsx:213 | different row indices print as different text |
| `BootOrder.RowIdsDistinct` | pkg/machines/components/vm/bootOrderModal.jsx:213 | the initial drag order has one id per device and no id twice |
| `BootOrder.BootOrderModal.constructor` | pkg/machines/components/vm/bootOrderModal.jsx:209-214 | the entries are derived from the listed devices, the drag order is `${vmId}-device-row-${i}` for each position `i`, and no error is shown |
| `BootOrder.BootOrderModal.OnDragFinish` | pkg/machines/components/vm/bootOrderModal.jsx:225-228 | the drag order becomes the reported order; entries and error unchanged |
| `BootOrder.BootOrderModal.OnDragMove` | pkg/machines/components/vm/bootOrderModal.jsx:230-237 | the drag order has the rows at the two positions exchanged; entries and error unchanged |
| `BootOrder.SwappedIsPermutation` | pkg/machines/components/vm/bootOrderModal.jsx:232-235 | a drag move keeps the length, exchanges the two ids, leaves every other position alone, and keeps the same ids |
| `BootOrder.SwappedTwice` | pkg/machines/components/vm/bootOrderModal.jsx:232-235 | repeating the same drag move restores the order |
| `BootOrder.BootOrderModal.DialogErrorSet` | pkg/machines/components/vm/bootOrderModal.jsx:247-249 | sets the error text and its detail; entries and drag order unchanged |
| `BootOrder.BootOrderModal.OnToggleDevice` | pkg/machines/components/vm/bootOrderModal.jsx:266-273 | the entries become the old ones with the toggled entry's checkbox flipped; drag order and error unchanged |
| `BootOrder.ToggledChangesOnlyThatEntry` | pkg/machines/components/vm/bootOrderModal.jsx:268-270 | toggling flips `checked` on that entry, keeps its device and initial order, and leaves the length and every other entry unchanged |
| `BootOrder.ToggledTwice` | pkg/machines/components/vm/bootOrderModal.jsx:268-270 | toggling the same entry twice restores the list |
| `BootOrder.BootOrderModal.Save` | pkg/machines/components/vm/bootOrderModal.jsx:251-264 | sends the checked entries of the entry list (the drag order plays no part); on success asks to refresh the VM and close; on failure shows "Boot order settings could not be saved" with the message as detail |
| `BootOrder.CheckedDevices` | pkg/machines/components/vm/bootOrderModal.jsx:253 | the request holds exactly the checked entries and is no longer than the list |
| `BootOrder.CheckedDevicesAppend` | pkg/machines/components/vm/bootOrderModal.jsx:253 | filtering distributes over concatenation, so the request keeps the list's order |
| `BootOrder.CheckedDevicesCount` | pkg/machines/components/vm/bootOrderModal.jsx:253 | the request has one entry per checked entry |
| `BootOrder.ToggleChangesRequestByOne` | pkg/machines/components/vm/bootOrderModal.jsx:251-273 | toggling an entry makes the request one entry shorter (it was checked) or longer (it was not) |
| `BootOrder.DeviceStateHasChanged` | pkg/machines/components/vm/bootOrderModal.jsx:313-327 | an entry is unchanged exactly when it is checked with initial order equal to its position plus one, or unchecked and never ordered (an order of 0 reads as never ordered) |
| `BootOrder.SomeChanged` | pkg/machines/components/vm/bootOrderModal.jsx:331 | true exactly when some entry, judged at its own position, has changed |
| `BootOrder.ShowWarning` | pkg/machines/components/vm/bootOrderModal.jsx:329-334 | the warning shows exactly when the VM is running and some entry at its position has changed |
| `BootOrder.NoWarningWhenOrdersMatchPositions` | pkg/machines/components/vm/bootOrderModal.jsx:313-333 | a freshly opened dialog whose devices carry the orders 1, 2, … of their positions, or none, shows no warning |
| `StringOrder.LessIrreflexive` | pkg/machines/components/deleteDialog.jsx:66 | no key sorts before itself |
| `StringOrder.LessTransitive` | pkg/machines/components/deleteDialog.jsx:66 | the key order is transitive |
| `StringOrder.LessTotal` | pkg/machines/components/deleteDialog.jsx:66 | any two different keys are ordered one way or the other |
| `StringOrder.MinExists` | pkg/machines/components/deleteDialog.jsx:66 | every non-empty set of keys has a least key |
| `StringOrder.MinUnique` | pkg/machines/components/deleteDialog.jsx:66 | the least key is unique |
| `StringOrder.SortedEnum` | pkg/machines/components/deleteDialog.jsx:66 | the ascending enumeration of a key set holds exactly its keys, strictly sorted |
| `StringOrder.SortKeys` | pkg/machines/components/deleteDialog.jsx:66 | sorting the disk keys yields their ascending enumeration |
| `DeleteVm.DeletableKeys` | pkg/machines/components/deleteDialog.jsx:66-71 | the keys kept are exactly the keys of file disks with a non-empty source file, and they stay in ascending order |
| `DeleteVm.StorageRows` | pkg/machines/components/deleteDialog.jsx:66-71 | visiting the sorted keys and pushing a row per deletable disk yields the rows of those keys in order |
| `DeleteVm.EntriesForDeletableKeys` | pkg/machines/components/deleteDialog.jsx:66-71 | the storage list has one row per kept key, in key order, each with the disk's target and file and checked exactly when the disk is not read-only |
| `DeleteVm.StorageListNonEmptyIff` | pkg/machines/components/deleteDialog.jsx:66-71 | the storage list (and so the storage section) is non-empty exactly when the VM has a deletable disk |
| `DeleteVm.DeleteDialog.constructor` | pkg/machines/components/deleteDialog.jsx:56-71 | starts hidden with no error, `destroy` exactly when the VM is running, and the storage rows of the disks in ascending key order |
| `DeleteVm.DeleteDialog.OnDiskCheckedChanged` | pkg/machines/components/deleteDialog.jsx:80-88 | sets the checkbox of the matching row only; a position matching no row changes nothing; every other field unchanged |
| `DeleteVm.DeleteDialog.OnValueChanged` | pkg/machines/components/deleteDialog.jsx:90-94 | sets only the named field |
| `DeleteVm.DeleteDialog.DialogErrorSet` | pkg/machines/components/deleteDialog.jsx:96-98 | sets the error; everything else unchanged |
| `DeleteVm.DeleteDialog.DialogErrorDismiss` | pkg/machines/components/deleteDialog.jsx:100-102 | clears the error; everything else unchanged |
| `DeleteVm.DeleteDialog.Close` | pkg/machines/components/deleteDialog.jsx:104-107 | hides the dialog and clears the error, keeping rows and `destroy`, so a second close changes nothing |
| `DeleteVm.DeleteDialog.Open` | pkg/machines/components/deleteDialog.jsx:109-111 | shows the dialog; everything else unchanged |
| `DeleteVm.DeleteDialog.Save` | pkg/machines/components/deleteDialog.jsx:113-119 | the request carries `destroy` as it stands and the files of the checked rows in list order |
| `DeleteVm.CheckedFiles` | pkg/machines/components/deleteDialog.jsx:117 | a file is in the request exactly when some checked row names it |
| `DeleteVm.CheckedFilesAfterSet` | pkg/machines/components/deleteDialog.jsx:80-117 | after a row's checkbox is set, its file is in the request exactly when the box is checked (rows naming distinct files) |
| `DeleteVm.CheckedFilesOfAllUnchecked` | pkg/machines/components/deleteDialog.jsx:117 | with every row unchecked no storage file is deleted |
| `DeleteVm.DeleteDialog.Render` | pkg/machines/components/deleteDialog.jsx:125-160 | the caution shows exactly when `destroy`, the storage list exactly when there is a row, the error alert exactly when the error is a non-empty text |
| `EditNetwork.FindFamily` | pkg/machines/components/networks/editNetworkDialog.jsx:39-40 | finds nothing exactly when no record has the family, and otherwise the first record that has it |
| `EditNetwork.FindFamilySkipsOthers` | pkg/machines/components/networks/editNetworkDialog.jsx:39-40 | records of other families in front do not change what is found |
| `EditNetwork.NoRecordNoSeed` | pkg/machines/components/networks/editNetworkDialog.jsx:44-47 | with no record of a family, that family's fields start undefined |
| `EditNetwork.EditNetworkModal.constructor` | pkg/machines/components/networks/editNetworkDialog.jsx:33-54 | address and netmask from the first IPv4 record, address and prefix from the first IPv6 record, no error |
| `EditNetwork.EditNetworkModal.DialogErrorSet` | pkg/machines/components/networks/editNetworkDialog.jsx:56-58 | sets error and detail; the fields unchanged |
| `EditNetwork.EditNetworkModal.DialogErrorDismiss` | pkg/machines/components/networks/editNetworkDialog.jsx:60-62 | clears the error only; the detail and the fields unchanged |
| `EditNetwork.EditNetworkModal.OnValueChanged` | pkg/machines/components/networks/editNetworkDialog.jsx:64-66 | only the edited field takes the new value |
| `EditNetwork.EditNetworkModal.OnSave` | pkg/machines/components/networks/editNetworkDialog.jsx:68-78 | sends the whole state; on failure shows "Network Setting failed to be saved" with the message as detail and keeps the fields; on success asks to close |
| `EditNetwork.EditNetworkAction.constructor` | pkg/machines/components/networks/editNetworkDialog.jsx:156-161 | the dialog starts hidden and unmounted |
| `EditNetwork.EditNetworkAction.Open` | pkg/machines/components/networks/editNetworkDialog.jsx:167-182 | shows the dialog; the render that follows mounts a fresh form seeded from the network, while an already mounted form keeps its state |
| `EditNetwork.EditNetworkAction.Close` | pkg/machines/components/networks/editNetworkDialog.jsx:163-165 | hides the dialog and unmounts the form |
| `EditNetwork.EditNetworkAction.Render` | pkg/machines/components/networks/editNetworkDialog.jsx:171-185 | renders the mounted form exactly while the dialog is shown |
| `NetworkList.FindUnnamed` | pkg/machines/components/networks/networkList.jsx:42 | finds nothing exactly when every network has a non-empty name, otherwise a network without one |
| `NetworkList.ShouldComponentUpdate` | pkg/machines/components/networks/networkList.jsx:40-43 | refuses the update exactly when some incoming network has a missing or empty name |
| `NetworkList.ByNameIsPreorder` | pkg/machines/components/networks/networkList.jsx:47 | comparing networks by name under a total preorder on names is itself total and transitive |
| `NetworkList.SortInPlace` | pkg/machines/components/networks/networkList.jsx:83 | the array ends sorted under the comparator and holds the same elements as before |
| `NetworkList.AllNamedPermutation` | pkg/machines/components/networks/networkList.jsx:83 | reordering keeps every network named |
| `NetworkList.Rows` | pkg/machines/components/networks/networkList.jsx:82-84 | one row per network (none for no networks), row `i` built from the `i`-th network after the in-place sort, which leaves the networks in ascending name order and the same networks as before; a single network needs no name |

## Left out

- Rendering: the device row labels and their lookups of host node devices,
  modal, list and table markup, display texts other than the error
  summaries, and the `-order-modal` element ids.
- Backend requests and refreshes (`changeBootOrder`, `getVm`, `deleteVm`,
  `changeNetworkSettings`) are D-Bus calls to libvirt: the model returns the
  request and takes the outcome as a parameter; the delete dialog ignores
  the outcome of `deleteVm`, as the source does.
- `getSortedBootOrderDevices`, `vmId` and `getNetworkRow` are defined in other
  files: their results are parameters, and nothing is assumed about the order
  the device helper returns.
- `localeCompare` depends on the locale: the name order is any total preorder
  `le` on names.
- `Decimal.ParseInt` does not model `parseInt`'s skipping of leading white
  space or its `0x` prefix; libvirt writes boot orders as plain digits.
- `StringOrder.Less` compares characters by code point where JavaScript
  compares UTF-16 code units; the two orders differ only between characters
  above U+FFFF and those in U+E000–U+FFFF, which disk targets do not use.
- `BootOrder.BootOrderModal.OnDragMove` requires both positions to be rows of
  the list, which is how the drag-and-drop list calls it; writing beyond the
  end of a JavaScript array is not modelled.
- `BootOrder.BootOrderModal.OnToggleDevice` and
  `DeleteVm.DeleteDialog.OnDiskCheckedChanged` identify the entry by its
  position; the source also mutates the shared entry object in place, which
  the previous state sees too (aliasing is not modelled).
- `DeleteVm.DeleteDialog.OnValueChanged` covers the two boolean fields
  (`showModal`, `destroy`); `setState` with any other key is not modelled.
- `EditNetwork.EditNetworkAction.Open` mounts the form when it is opened,
  with the network as it is then; a later change of the `network` property
  while the form is mounted is not passed on (the source does not pass it
  on either, since the form seeds its state only when it is constructed).
- `EditNetwork.EditNetworkModal.OnValueChanged` covers the four keys the
  inputs use.
- `NetworkList.Rows` requires a name on every network of a list of two or
  more. The source throws a TypeError only when the engine's sort passes an
  unnamed network as the comparator's first argument (`"x".localeCompare(undefined)`
  compares with the text "undefined"), which depends on the sort algorithm;
  such lists are not modelled. A single network, which the sort never
  compares, may lack a name.
- Syntax errors and slips in the source, modelled by their evident intent:
  `deleteDialog.jsx:87` passes `disks: disks` to `setState` without braces
  (modelled as storing the updated rows); `editNetworkDialog.jsx:74-75` ends
  the `.fail` call with `;` before `.then` (modelled as the chain
  `.fail(…).then(…)`, whose `then` runs only on success); and
  `editNetworkDialog.jsx:69` assigns `dispatch` without declaring it (no
  effect on the model).
- Commented-out move-up/move-down code, drag start/cancel handlers, which
  only log, and `console.log` calls.
- `diskEdit.jsx` and `vmDisksTab.jsx` are not part of this model: they hold a
  checkbox flag and a modal toggle, and their one real predicate lives in a
  helper file that is not part of this model either.
