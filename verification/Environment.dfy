/** Variables in two tries: what the command line and the program bind shadows what the package binds. */
module Environment {
  import opened Bytes
  import E = Expand
  import H = HashTrie

  /** A name is looked up in the first trie and then in the second, creating nothing. */
  method Lookup(global: H.Trie<Bytes>, env: H.Trie<Bytes>, name: Bytes) returns (value: Option<Bytes>)
    requires global.Valid() && env.Valid()
    ensures name in global.Contents() ==> value == Some(global.Contents()[name])
    ensures name !in global.Contents() && name in env.Contents() ==> value == Some(env.Contents()[name])
    ensures name !in global.Contents() && name !in env.Contents() ==> value == None
    ensures value == E.Lookup(global.Contents(), env.Contents(), name)
  {
    hide H.Trie.Valid, H.Trie.Contents;
    value := global.Lookup(name);
    if value == None {
      value := env.Lookup(name);
    }
  }
}
