/** The one ordered-map query the engine uses: the greatest key at or below an address
    (`range(..=addr).next_back()` on a `BTreeMap`). */
module OrderedMap {

  datatype Option<+T> = None | Some(value: T)

  /** Greatest member of `keys` that is at most `addr`. */
  function Floor(keys: set<nat>, addr: nat): (r: Option<nat>)
    ensures r.None? ==> forall k :: k in keys ==> addr < k
    ensures r.Some? ==> r.value in keys && r.value <= addr
    ensures r.Some? ==> forall k :: k in keys && k <= addr ==> k <= r.value
  {
    if addr in keys then Some(addr)
    else if addr == 0 then None
    else Floor(keys, addr - 1)
  }
}
