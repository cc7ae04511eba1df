/** Cache items: what the tree stores and compares. */
module Items {
  import opened Keys

  const SECOND := 1_000_000_000

  /** An item. Only its TTL ever changes; its order is the order of its key. */
  class Item {
    const key: Key
    const hash: nat
    var TTL: int

    constructor (key: Key, hash: nat, ttl: int)
      ensures this.key == key && this.hash == hash && TTL == ttl
    {
      this.key, this.hash, TTL := key, hash, ttl;
    }

    predicate Lt(other: Item) {
      Less(key, other.key)
    }

    predicate Gt(other: Item) {
      Less(other.key, key)
    }

    predicate Equals(other: Item) {
      key == other.key
    }
  }

  datatype ItemError = TtlTooShort | BadKey(error: KeyError)

  /** A new item, or the reason there is none: the TTL is looked at before the key. */
  method NewItem(key: Key, ttl: int) returns (item: Item?, err: Option<ItemError>)
    ensures err == if ttl <= 1_000_000_000 then Some(TtlTooShort)
                   else if CheckKey(key).Some? then Some(BadKey(CheckKey(key).value))
                   else None
    ensures err.None? <==> item != null
    ensures item != null ==> fresh(item) && item.key == key && item.hash == HashOf(key) && item.TTL == ttl
  {
    if ttl <= SECOND {
      return null, Some(TtlTooShort);
    }
    if CheckKey(key).Some? {
      return null, Some(BadKey(CheckKey(key).value));
    }
    var hash := StrHash(key);
    item := new Item(key, hash, ttl);
    err := None;
  }

  /** An item that only carries a key, to search with. */
  method NewItemKey(key: Key) returns (item: Item?, err: Option<KeyError>)
    ensures err == CheckKey(key)
    ensures err.None? <==> item != null
    ensures item != null ==> fresh(item) && item.key == key && item.hash == HashOf(key) && item.TTL == 0
  {
    err := CheckKey(key);
    if err.Some? {
      return null, err;
    }
    var hash := StrHash(key);
    item := new Item(key, hash, 0);
  }
}
