/** The value types shared by the firehose client, the filter engine and the
    aircraft cache: bytes, an Option type and the decoded aircraft record. */
module Records {

  /** One octet of the network stream. */
  newtype byte = b: int | 0 <= b < 256

  datatype Option<T> = None | Some(value: T)

  /** One key of a decoded JSON object: the key may be absent, present with
      `null`, or present with a value. Python's `d.get(k)` and `d.get(k, default)`
      tell these three apart differently, so the model keeps all three. */
  datatype Field<T> = Missing | Null | Has(value: T)
  {
    /** `d.get(k)`: None for an absent key and for an explicit null. */
    function Get(): Option<T>
    {
      if Has? then Some(value) else None
    }

    /** `d.get(k, default)`: the default replaces only an absent key;
        an explicit null is returned as None. */
    function GetOr(default: T): Option<T>
    {
      match this
      case Missing => Some(default)
      case Null => None
      case Has(v) => Some(v)
    }
  }

  /** One aircraft record, as decoded from a frame's JSON object. Only the keys
      the core reads are kept. `isOnGround` is the truthiness of
      `get("is_on_ground", False)`. */
  datatype Record = Record(
    adshex: Field<string>,
    lat: Field<real>,
    lon: Field<real>,
    altitude: Field<int>,
    isOnGround: bool,
    vertRate: Field<int>,
    heading: Field<real>,
    speed: Field<real>)
}
