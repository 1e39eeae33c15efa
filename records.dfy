/** Values shared by the dialogs: JavaScript's `undefined`, truthiness, the
    outcome of a backend call, and the libvirt network records the network
    views read. */
module Records {

  /** A JavaScript value that may be `undefined` (or, for numbers, NaN). */
  datatype Option<+T> = None | Some(value: T)

  /** What a backend request (a libvirt call over D-Bus) settled to: success,
      or failure carrying the exception's message. */
  datatype Outcome = Success | Failure(message: string)

  /** JavaScript truthiness of a possibly undefined string: `undefined` and
      the empty string are falsy. */
  predicate TruthyString(s: Option<string>)
  {
    s.Some? && s.value != ""
  }

  /** JavaScript truthiness of a number that may be NaN: NaN and 0 are falsy. */
  predicate TruthyInt(n: Option<int>)
  {
    n.Some? && n.value != 0
  }

  /** One `<ip>` element of a libvirt network; absent attributes are None. */
  datatype IpRecord = IpRecord(
    family: string,
    address: Option<string>,
    netmask: Option<string>,
    prefix: Option<string>)

  /** A libvirt virtual network as the network views receive it. */
  datatype Network = Network(name: Option<string>, ip: seq<IpRecord>)
}
