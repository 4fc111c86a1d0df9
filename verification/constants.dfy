/**
 * Network constants (src/network/constants.rs): the protocol version written in the `version`
 * message and the `Network` enum, whose names come from a `user_enum` table.
 */
module Constants {
  import opened Integers
  import opened Wrappers
  import opened Errors
  import Checked
  import UserEnum

  /** Version of the protocol as it appears in network messages. */
  const PROTOCOL_VERSION: u32 := 70001

  /** The chain to act on, in declaration order. */
  datatype Network = Bitcoin | Testnet | Regtest

  /** The `Variant <-> "text"` lines of the `Network` declaration. */
  const NETWORK_TABLE: UserEnum.Table<Network> := [(Bitcoin, "bitcoin"), (Testnet, "testnet"), (Regtest, "regtest")]

  /** Every network is on exactly one line, and every line has its own text. */
  lemma TableIsBijective()
    ensures UserEnum.Variants(NETWORK_TABLE) == {Bitcoin, Testnet, Regtest}
    ensures UserEnum.Texts(NETWORK_TABLE) == {"bitcoin", "testnet", "regtest"}
    ensures UserEnum.DistinctVariants(NETWORK_TABLE) && UserEnum.DistinctTexts(NETWORK_TABLE)
  {
    assert NETWORK_TABLE[1..] == [(Testnet, "testnet"), (Regtest, "regtest")];
    assert NETWORK_TABLE[1..][1..] == [(Regtest, "regtest")];
  }

  /** Display (and Debug): the network's text. */
  function Name(n: Network): (t: string)
    ensures UserEnum.FromStr(NETWORK_TABLE, t) == Ok(n)
  {
    TableIsBijective();
    assert n == Bitcoin || n == Testnet || n == Regtest;
    UserEnum.FromStrOfText(NETWORK_TABLE, n);
    UserEnum.ToText(NETWORK_TABLE, n)
  }

  /** FromStr: the network with exactly this text, or an `InvalidInput` error. */
  function FromStr(s: string): (r: Result<Network, IoError>)
    ensures r.Ok? <==> s == "bitcoin" || s == "testnet" || s == "regtest"
    ensures r.Ok? ==> Name(r.value) == s
    ensures r.Err? ==> r.error.kind == InvalidInput && r.error == UserEnum.UnknownText(s)
  {
    TableIsBijective();
    var r := UserEnum.FromStr(NETWORK_TABLE, s);
    if r.Ok? then
      UserEnum.TextOfFromStr(NETWORK_TABLE, s);
      r
    else r
  }

  /** The texts are the lower-case names of the variants. */
  lemma NameValues()
    ensures Name(Bitcoin) == "bitcoin" && Name(Testnet) == "testnet" && Name(Regtest) == "regtest"
  {
    TableIsBijective();
    assert NETWORK_TABLE[1..] == [(Testnet, "testnet"), (Regtest, "regtest")];
    assert NETWORK_TABLE[1..][1..] == [(Regtest, "regtest")];
  }

  /** Parsing the printed name gives the network back. */
  lemma {:induction false} FromStrOfName(n: Network)
    ensures FromStr(Name(n)) == Ok(n)
  {
  }

  /** Matching is exact and case-sensitive: a capitalised name is rejected. */
  lemma FromStrIsCaseSensitive()
    ensures FromStr("Bitcoin").Err? && FromStr("TESTNET").Err? && FromStr(" regtest").Err?
    ensures FromStr("Bitcoin").error == IoError(InvalidInput, "Unknown network (type Bitcoin)")
  {
  }

  /** Position of the network in the declaration (the derived `Ord` compares these). */
  function Index(n: Network): (i: nat)
    ensures i < |NETWORK_TABLE| && NETWORK_TABLE[i].0 == n
  {
    match n
    case Bitcoin => 0
    case Testnet => 1
    case Regtest => 2
  }

  /** The derived `Ord::cmp`: declaration order. */
  function Cmp(a: Network, b: Network): (r: Checked.Ordering)
    ensures r == Checked.Equal <==> a == b
    ensures r == Checked.Less <==> Index(a) < Index(b)
  {
    Checked.Cmp(Index(a), Index(b))
  }

  /** Swapping the operands reverses the order. */
  lemma CmpReverses(a: Network, b: Network)
    ensures Cmp(b, a) == Cmp(a, b).Reverse()
  {
  }

  /** Bitcoin < Testnet < Regtest, and the order is transitive. */
  lemma DeclarationOrder(a: Network, b: Network, c: Network)
    ensures Cmp(Bitcoin, Testnet) == Checked.Less && Cmp(Testnet, Regtest) == Checked.Less
    ensures Cmp(a, b) == Checked.Less && Cmp(b, c) == Checked.Less ==> Cmp(a, c) == Checked.Less
  {
  }
}
