/** JSON values as `serde_json::Value` holds them once parsed. Objects are
    maps from key to value: key order is not modelled. */
module JsonValues {
  import opened Wrappers
  import opened Addresses

  datatype Json =
    | Null
    | Bool(b: bool)
    | Number(n: int)
    | String(s: string)
    | Array(items: seq<Json>)
    | Object(fields: map<string, Json>)

  /** `Value::get` on an object: `None` for a missing key or a non-object. */
  function Get(j: Json, key: string): (r: Option<Json>)
    ensures r.Some? <==> j.Object? && key in j.fields
    ensures r.Some? ==> r.value == j.fields[key]
  {
    if j.Object? && key in j.fields then Some(j.fields[key]) else None
  }

  /** Reads back an address object `{"email": .., "name": ..}`: the
      inverse of the providers' `build_address`. */
  function ReadAddress(j: Json): Option<Address>
  {
    match Get(j, "email")
    case Some(String(e)) =>
      (match Get(j, "name")
       case None => Some(New(e))
       case Some(String(n)) => Some(WithName(n, e))
       case Some(_) => None)
    case _ => None
  }

  /** The providers' `build_address`: `{"email": .., "name": ..}`, with
      `name` only when the address has one. */
  function AddressObject(a: Address): (j: Json)
    ensures j.Object? && "email" in j.fields && j.fields["email"] == String(a.email)
    ensures "name" in j.fields <==> a.name.Some?
    ensures a.name.Some? ==> j.fields["name"] == String(a.name.value)
    ensures j.fields.Keys <= {"email", "name"}
  {
    match a.name
    case None => Object(map["email" := String(a.email)])
    case Some(n) => Object(map["email" := String(a.email), "name" := String(n)])
  }

  /** The address objects are read back to the addresses they came from. */
  lemma ReadAddressObject(a: Address)
    ensures ReadAddress(AddressObject(a)) == Some(a)
  {
  }

  /** An address list as a JSON array, in order. */
  function AddressArray(addrs: seq<Address>): (j: Json)
    ensures j.Array? && |j.items| == |addrs|
    ensures forall i :: 0 <= i < |addrs| ==> j.items[i] == AddressObject(addrs[i])
  {
    Array(seq(|addrs|, i requires 0 <= i < |addrs| => AddressObject(addrs[i])))
  }

  /** Reads back a string value. */
  function ReadString(j: Json): (r: Option<string>)
    ensures r.Some? <==> j.String?
    ensures r.Some? ==> j == String(r.value)
  {
    if j.String? then Some(j.s) else None
  }

  /** Reads back an address array. */
  function ReadAddressList(j: Json): Option<seq<Address>>
  {
    if j.Array? then ReadAddresses(j.items) else None
  }

  /** Reads back every element of an address array, in order; `None` if
      any element is not an address object. */
  function ReadAddresses(items: seq<Json>): Option<seq<Address>>
  {
    if |items| == 0 then Some([])
    else
      match (ReadAddress(items[0]), ReadAddresses(items[1..]))
      case (Some(a), Some(rest)) => Some([a] + rest)
      case _ => None
  }

  /** An address array is read back to the list it came from. */
  lemma {:induction false} ReadAddressArray(addrs: seq<Address>)
    ensures ReadAddresses(AddressArray(addrs).items) == Some(addrs)
  {
    if |addrs| > 0 {
      var items := AddressArray(addrs).items;
      ReadAddressObject(addrs[0]);
      assert items[1..] == AddressArray(addrs[1..]).items;
      ReadAddressArray(addrs[1..]);
      assert addrs == [addrs[0]] + addrs[1..];
    }
  }
}
