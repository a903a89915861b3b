// Python dict operations the modelled code relies on.
module PyDict {

  /** The loop that pops collected keys one by one. */
  method PopAll<K(==), V>(dict: map<K, V>, keys: set<K>) returns (rest: map<K, V>)
    ensures rest == dict - keys
  {
    rest := dict;
    var left := keys;
    while left != {}
      invariant left <= keys
      invariant rest == dict - (keys - left)
      decreases |left|
    {
      var key :| key in left;
      assert keys - (left - {key}) == (keys - left) + {key};
      rest := rest - {key};
      left := left - {key};
    }
    assert keys - left == keys;
  }
}
