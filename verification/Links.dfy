/** Elements with links: what utlist.h and uthash.h find in the structs of their users. */
module Links {

  /**
   * An element. `prev` and `next` are the links of utlist.h, and in a UT_hash_handle the
   * application order; the hh pointers are the bucket chain. `key` stands for the user's data.
   */
  class Handle<K(!new)> {
    const key: K
    var hashv: nat
    var prev: Handle?<K>
    var next: Handle?<K>
    var hhPrev: Handle?<K>
    var hhNext: Handle?<K>

    constructor (key: K)
      ensures this.key == key
    {
      this.key, hashv := key, 0;
      prev, next, hhPrev, hhNext := null, null, null, null;
    }
  }

  ghost predicate NoDup<K(!new)>(s: seq<Handle<K>>) { forall i, j | 0 <= i < j < |s| :: s[i] != s[j] }
}
