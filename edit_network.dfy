/** The network edit dialog: four address fields seeded from the network's
    first IPv4 and first IPv6 records, per-field edits, the error it shows
    when saving fails, and the Edit action that mounts it. */
module EditNetwork {
  import opened Records

  /** `ips.find(ip => ip.family === family)`: the first record of that family. */
  function FindFamily(ips: seq<IpRecord>, family: string): (found: Option<IpRecord>)
    ensures found.None? <==> forall i :: 0 <= i < |ips| ==> ips[i].family != family
    ensures found.Some? ==>
      exists i :: 0 <= i < |ips| && ips[i] == found.value && ips[i].family == family &&
                  forall j :: 0 <= j < i ==> ips[j].family != family
  {
    if ips == [] then None
    else if ips[0].family == family then Some(ips[0])
    else
      var rest := FindFamily(ips[1..], family);
      assert rest.Some? ==>
        exists i :: 0 <= i < |ips[1..]| && ips[1..][i] == rest.value && ips[i + 1].family == family &&
                    forall j :: 0 <= j <= i ==> ips[j].family != family;
      rest
  }

  /** An attribute of the record found, or undefined when none was found. */
  function AddressOf(r: Option<IpRecord>): Option<string>
  {
    if r.Some? then r.value.address else None
  }

  function NetmaskOf(r: Option<IpRecord>): Option<string>
  {
    if r.Some? then r.value.netmask else None
  }

  function PrefixOf(r: Option<IpRecord>): Option<string>
  {
    if r.Some? then r.value.prefix else None
  }

  /** A network without any record of a family seeds that family's fields
      as undefined. */
  lemma NoRecordNoSeed(ips: seq<IpRecord>, family: string)
    requires forall i :: 0 <= i < |ips| ==> ips[i].family != family
    ensures AddressOf(FindFamily(ips, family)) == None
    ensures NetmaskOf(FindFamily(ips, family)) == None
    ensures PrefixOf(FindFamily(ips, family)) == None
  {
  }

  /** Records in front of the first one of a family do not matter. */
  lemma {:induction false} FindFamilySkipsOthers(other: seq<IpRecord>, ips: seq<IpRecord>, family: string)
    requires forall i :: 0 <= i < |other| ==> other[i].family != family
    ensures FindFamily(other + ips, family) == FindFamily(ips, family)
  {
    if other == [] {
      assert other + ips == ips;
    } else {
      assert (other + ips)[1..] == other[1..] + ips;
      FindFamilySkipsOthers(other[1..], ips, family);
    }
  }

  const SaveErrorText := "Network Setting failed to be saved"

  /** The form fields the inputs edit. */
  datatype FormField = Ipv4Address | Ipv4Netmask | Ipv6Address | Ipv6Prefix

  /** The dialog's whole state, as saving passes it to the backend. */
  datatype NetworkForm = NetworkForm(
    dialogError: Option<string>,
    dialogErrorDetail: Option<string>,
    ipv4Address: Option<string>,
    ipv4Netmask: Option<string>,
    ipv6Address: Option<string>,
    ipv6Prefix: Option<string>)

  class EditNetworkModal {
    var dialogError: Option<string>
    var dialogErrorDetail: Option<string>
    var ipv4Address: Option<string>
    var ipv4Netmask: Option<string>
    var ipv6Address: Option<string>
    var ipv6Prefix: Option<string>

    function State(): NetworkForm
      reads this
    {
      NetworkForm(dialogError, dialogErrorDetail, ipv4Address, ipv4Netmask, ipv6Address, ipv6Prefix)
    }

    /** The state a dialog opened on `network` starts in: the IPv4 fields
        from the first IPv4 record, the IPv6 fields from the first IPv6
        record, and no error. */
    ghost predicate SeededFrom(network: Network)
      reads this
    {
      && dialogError == None && dialogErrorDetail == None
      && ipv4Address == AddressOf(FindFamily(network.ip, "ipv4"))
      && ipv4Netmask == NetmaskOf(FindFamily(network.ip, "ipv4"))
      && ipv6Address == AddressOf(FindFamily(network.ip, "ipv6"))
      && ipv6Prefix == PrefixOf(FindFamily(network.ip, "ipv6"))
    }

    constructor (network: Network)
      ensures SeededFrom(network)
    {
      var v4 := FindFamily(network.ip, "ipv4");
      var v6 := FindFamily(network.ip, "ipv6");
      dialogError, dialogErrorDetail := None, None;
      ipv4Address := if v4.Some? then v4.value.address else None;
      ipv4Netmask := if v4.Some? then v4.value.netmask else None;
      ipv6Address := if v6.Some? then v6.value.address else None;
      ipv6Prefix := if v6.Some? then v6.value.prefix else None;
    }

    method DialogErrorSet(text: string, detail: string)
      modifies this
      ensures State() == old(State()).(dialogError := Some(text), dialogErrorDetail := Some(detail))
    {
      dialogError, dialogErrorDetail := Some(text), Some(detail);
    }

    /** Hides the error; its detail stays as it was. */
    method DialogErrorDismiss()
      modifies this
      ensures State() == old(State()).(dialogError := None)
    {
      dialogError := None;
    }

    /** An input changed: only that field takes the new value. */
    method OnValueChanged(key: FormField, value: string)
      modifies this
      ensures State() == match key
        case Ipv4Address => old(State()).(ipv4Address := Some(value))
        case Ipv4Netmask => old(State()).(ipv4Netmask := Some(value))
        case Ipv6Address => old(State()).(ipv6Address := Some(value))
        case Ipv6Prefix => old(State()).(ipv6Prefix := Some(value))
    {
      match key
      case Ipv4Address => ipv4Address := Some(value);
      case Ipv4Netmask => ipv4Netmask := Some(value);
      case Ipv6Address => ipv6Address := Some(value);
      case Ipv6Prefix => ipv6Prefix := Some(value);
    }

    /** Saving sends the whole state; `outcome` is how the request ended. On
        failure the error and its detail are shown and the fields are kept;
        on success the dialog asks to be closed. */
    method OnSave(outcome: Outcome) returns (request: NetworkForm, closeRequested: bool)
      modifies this
      ensures request == old(State())
      ensures closeRequested <==> outcome.Success?
      ensures outcome.Failure? ==>
        State() == old(State()).(dialogError := Some(SaveErrorText), dialogErrorDetail := Some(outcome.message))
      ensures outcome.Success? ==> State() == old(State())
    {
      request := State();
      closeRequested := outcome.Success?;
      if outcome.Failure? {
        DialogErrorSet(SaveErrorText, outcome.message);
      }
    }
  }

  /** The Edit button and the dialog it mounts. React keeps the mounted
      dialog, with its edits, for as long as `showModal` holds. */
  class EditNetworkAction {
    var showModal: bool
    var modal: EditNetworkModal?

    /** The dialog is mounted exactly while it is shown. */
    ghost predicate Valid()
      reads this
    {
      (modal != null) <==> showModal
    }

    constructor ()
      ensures Valid() && !showModal
    {
      showModal := false;
      modal := null;
    }

    /** Shows the dialog: a dialog not yet mounted is mounted as a fresh form
        seeded from `network`; one already mounted stays as it is. */
    method Open(network: Network)
      requires Valid()
      modifies this
      ensures Valid() && showModal
      ensures old(modal) != null ==> modal == old(modal)
      ensures old(modal) == null ==> fresh(modal) && modal.SeededFrom(network)
    {
      showModal := true;
      if modal == null {
        modal := new EditNetworkModal(network);
      }
    }

    /** Hides the dialog, unmounting it and dropping its edits. */
    method Close()
      requires Valid()
      modifies this
      ensures Valid() && !showModal
    {
      showModal := false;
      modal := null;
    }

    /** The dialog rendered: the mounted one exactly while `showModal` holds. */
    method Render() returns (mounted: EditNetworkModal?)
      requires Valid()
      ensures mounted == modal
      ensures (mounted != null) <==> showModal
    {
      mounted := modal;
    }
  }
}
