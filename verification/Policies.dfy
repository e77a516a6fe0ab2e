/** Session policies in canonical order, and the two lists derived from it: what is registered in the
    session URL and what the session signs.

    The parser of addresses and the hash from entrypoint names to selectors are library functions;
    both are parameters, and everything holds whatever they are. */
module Policies {
  import opened Wrappers
  import opened Bytes
  import opened Records
  import opened HexOrder

  type Parser = bytes -> Option<Felt>
  type Selector = bytes -> Option<Felt>

  datatype Entry = Entry(address: Felt, addressHex: bytes, entrypoint: bytes)

  datatype Payload = Payload(target: bytes, method_: bytes)

  datatype SdkPolicy = SdkPolicy(contractAddress: Felt, selector: Felt)

  // ---------- The comparator ----------

  function EntryCompare(a: Entry, b: Entry): Ordering {
    Compare(a.addressHex, b.addressHex)
      .Then(Compare(Lower(a.entrypoint), Lower(b.entrypoint)))
      .Then(Compare(a.entrypoint, b.entrypoint))
  }

  predicate WellFormed(e: Entry) {
    e.addressHex == FormatHex(e.address)
  }

  function MakeEntry(address: Felt, entrypoint: bytes): Entry {
    Entry(address, FormatHex(address), entrypoint)
  }

  /** `a` comes before `b`: by the number of the address, then by entrypoint with A-Z taken as a-z, then by
      entrypoint. */
  ghost predicate Precedes(a: Entry, b: Entry) {
    || a.address < b.address
    || (a.address == b.address
        && var x, y := Lower(a.entrypoint), Lower(b.entrypoint);
           Before(x, y) || (x == y && Before(a.entrypoint, b.entrypoint)))
  }

  /** The comparator is that order. */
  lemma EntryCompareNumeric(a: Entry, b: Entry)
    requires WellFormed(a) && WellFormed(b)
    ensures EntryCompare(a, b) == CompareNat(a.address, b.address)
                                  .Then(Compare(Lower(a.entrypoint), Lower(b.entrypoint)))
                                  .Then(Compare(a.entrypoint, b.entrypoint))
    ensures EntryCompare(a, b) == Less <==> Precedes(a, b)
  {
    hide Compare, Before, FormatHex, Lower;
    TextOrderIsNumericOrder(a.address, b.address);
    CompareLess(a.addressHex, b.addressHex);
    CompareEqual(a.addressHex, b.addressHex);
    CompareLess(Lower(a.entrypoint), Lower(b.entrypoint));
    CompareEqual(Lower(a.entrypoint), Lower(b.entrypoint));
    CompareLess(a.entrypoint, b.entrypoint);
  }

  /** Only identical entries compare equal, so ties cannot make the order ambiguous. */
  lemma EntryCompareEqual(a: Entry, b: Entry)
    requires WellFormed(a) && WellFormed(b)
    ensures EntryCompare(a, b) == Equal <==> a == b
  {
    EntryCompareNumeric(a, b);
    CompareEqual(a.entrypoint, b.entrypoint);
    CompareEqual(Lower(a.entrypoint), Lower(b.entrypoint));
  }

  lemma EntryCompareFlip(a: Entry, b: Entry)
    ensures EntryCompare(b, a) == EntryCompare(a, b).Flip()
  {
    CompareFlip(a.addressHex, b.addressHex);
    CompareFlip(Lower(a.entrypoint), Lower(b.entrypoint));
    CompareFlip(a.entrypoint, b.entrypoint);
  }

  lemma CompareChain(a: bytes, b: bytes, c: bytes)
    requires Compare(a, b) != Greater && Compare(b, c) != Greater
    ensures Compare(a, c) == if Compare(a, b) == Equal then Compare(b, c) else Less
  {
    CompareEqual(a, b);
    CompareEqual(b, c);
    if Compare(a, b) == Less && Compare(b, c) == Less {
      CompareTransitive(a, b, c);
    }
  }

  lemma EntryCompareTransitive(a: Entry, b: Entry, c: Entry)
    requires EntryCompare(a, b) != Greater && EntryCompare(b, c) != Greater
    ensures EntryCompare(a, c) != Greater
  {
    CompareChain(a.addressHex, b.addressHex, c.addressHex);
    if Compare(a.addressHex, b.addressHex) == Equal && Compare(b.addressHex, c.addressHex) == Equal {
      CompareChain(Lower(a.entrypoint), Lower(b.entrypoint), Lower(c.entrypoint));
      if Compare(Lower(a.entrypoint), Lower(b.entrypoint)) == Equal
         && Compare(Lower(b.entrypoint), Lower(c.entrypoint)) == Equal {
        CompareChain(a.entrypoint, b.entrypoint, c.entrypoint);
      }
    }
  }

  // ---------- Sorting ----------

  predicate Sorted(s: seq<Entry>) {
    forall i, j :: 0 <= i < j < |s| ==> EntryCompare(s[i], s[j]) != Greater
  }

  predicate AllWellFormed(s: seq<Entry>) {
    forall i :: 0 <= i < |s| ==> WellFormed(s[i])
  }

  function Insert(e: Entry, s: seq<Entry>): (r: seq<Entry>)
    ensures multiset(r) == multiset(s) + multiset{e}
  {
    if s == [] then [e]
    else if EntryCompare(e, s[0]) != Greater then [e] + s
    else
      assert s == [s[0]] + s[1..];
      [s[0]] + Insert(e, s[1..])
  }

  function Sort(s: seq<Entry>): (r: seq<Entry>)
    ensures multiset(r) == multiset(s)
  {
    if s == [] then [] else
    assert s == [s[0]] + s[1..];
    Insert(s[0], Sort(s[1..]))
  }

  lemma MultisetMember<T>(s: seq<T>, t: seq<T>)
    requires multiset(s) == multiset(t)
    ensures |s| == |t| && forall x :: x in s <==> x in t
  {
    assert |s| == |multiset(s)| == |t|;
    forall x ensures x in s <==> x in t {
      assert x in s <==> x in multiset(s);
      assert x in t <==> x in multiset(t);
    }
  }

  lemma {:induction false} InsertSorted(e: Entry, s: seq<Entry>)
    requires Sorted(s)
    ensures Sorted(Insert(e, s))
  {
    if s != [] {
      if EntryCompare(e, s[0]) != Greater {
        forall j | 1 <= j < |s| ensures EntryCompare(e, s[j]) != Greater {
          EntryCompareTransitive(e, s[0], s[j]);
        }
      } else {
        var tail := Insert(e, s[1..]);
        InsertSorted(e, s[1..]);
        EntryCompareFlip(e, s[0]);
        forall j | 0 <= j < |tail| ensures EntryCompare(s[0], tail[j]) != Greater {
          MemberOfInsert(e, s[1..], j);
        }
      }
    }
  }

  lemma MemberOfInsert(e: Entry, s: seq<Entry>, j: nat)
    requires j < |Insert(e, s)|
    ensures Insert(e, s)[j] == e || Insert(e, s)[j] in s
  {
    var x := Insert(e, s)[j];
    assert x in multiset(Insert(e, s));
  }

  lemma {:induction false} SortSorted(s: seq<Entry>)
    ensures Sorted(Sort(s))
  {
    if s != [] {
      SortSorted(s[1..]);
      InsertSorted(s[0], Sort(s[1..]));
    }
  }

  lemma SortKeeps(s: seq<Entry>)
    requires AllWellFormed(s)
    ensures |Sort(s)| == |s| && AllWellFormed(Sort(s))
  {
    MultisetMember(s, Sort(s));
    forall i | 0 <= i < |Sort(s)| ensures WellFormed(Sort(s)[i]) {
      assert Sort(s)[i] in s;
    }
  }

  /** There is one sorted arrangement of a collection of entries: which sorting algorithm is used, and
      whether it is stable, cannot matter. */
  lemma {:induction false} SortedUnique(s: seq<Entry>, t: seq<Entry>)
    requires Sorted(s) && Sorted(t) && AllWellFormed(s) && multiset(s) == multiset(t)
    ensures s == t
  {
    hide Sorted, AllWellFormed;
    assert |s| == |multiset(s)| == |t|;
    if s != [] {
      SameFirst(s, t);
      TailOf(s);
      TailOf(t);
      SortedUnique(s[1..], t[1..]);
      assert s == [s[0]] + s[1..];
    }
  }

  lemma TailOf(s: seq<Entry>)
    requires s != []
    ensures Sorted(s) ==> Sorted(s[1..])
    ensures AllWellFormed(s) ==> AllWellFormed(s[1..])
    ensures multiset(s[1..]) == multiset(s) - multiset{s[0]}
  {
    hide EntryCompare, WellFormed;
    assert s == [s[0]] + s[1..];
  }

  lemma SameFirst(s: seq<Entry>, t: seq<Entry>)
    requires Sorted(s) && Sorted(t) && AllWellFormed(s) && s != [] && multiset(s) == multiset(t)
    ensures t != [] && s[0] == t[0]
  {
    hide EntryCompare, WellFormed;
    MultisetMember(s, t);
    assert s[0] in t && t[0] in s;
    var i :| 0 <= i < |t| && t[i] == s[0];
    var j :| 0 <= j < |s| && s[j] == t[0];
    EntryCompareFlip(s[0], s[j]);
    EntryCompareEqual(s[0], s[j]);
  }

  // ---------- Canonicalisation ----------

  /** The entries of the policies in their own order; nothing if some address does not parse. */
  function ParseAll(parse: Parser, policies: seq<SessionPolicy>): (r: Option<seq<Entry>>)
    ensures r.Some? ==> AllWellFormed(r.value)
  {
    if policies == [] then Some([]) else
    match parse(policies[0].contractAddress)
    case None => None
    case Some(address) =>
      match ParseAll(parse, policies[1..])
      case None => None
      case Some(rest) => Some([MakeEntry(address, policies[0].entrypoint)] + rest)
  }

  function Canonicalize(parse: Parser, policies: seq<SessionPolicy>): Option<seq<Entry>> {
    match ParseAll(parse, policies)
    case None => None
    case Some(entries) => Some(Sort(entries))
  }

  /** What a policy means: the address its text denotes, if any, and the entrypoint. */
  function Meaning(parse: Parser, p: SessionPolicy): (Option<Felt>, bytes) {
    (parse(p.contractAddress), p.entrypoint)
  }

  function Meanings(parse: Parser, policies: seq<SessionPolicy>): (r: seq<(Option<Felt>, bytes)>)
    ensures |r| == |policies|
  {
    seq(|policies|, i requires 0 <= i < |policies| => Meaning(parse, policies[i]))
  }

  lemma MeaningsCons(parse: Parser, policies: seq<SessionPolicy>)
    requires policies != []
    ensures Meanings(parse, policies) == [Meaning(parse, policies[0])] + Meanings(parse, policies[1..])
  {}

  /** Parsing fails exactly when some address denotes nothing. */
  lemma {:induction false} ParseAllIff(parse: Parser, policies: seq<SessionPolicy>)
    ensures ParseAll(parse, policies).None? <==> exists m :: m in Meanings(parse, policies) && m.0.None?
  {
    if policies != [] {
      MeaningsCons(parse, policies);
      ParseAllIff(parse, policies[1..]);
      var head := Meaning(parse, policies[0]);
      assert head in Meanings(parse, policies);
      assert forall m :: m in Meanings(parse, policies) <==> m == head || m in Meanings(parse, policies[1..]);
    }
  }

  /** Each address and entrypoint occurs among the entries as often as among the meanings. */
  lemma {:induction false} Multiplicity(parse: Parser, policies: seq<SessionPolicy>, address: Felt, entrypoint: bytes)
    requires ParseAll(parse, policies).Some?
    ensures multiset(ParseAll(parse, policies).value)[MakeEntry(address, entrypoint)]
         == multiset(Meanings(parse, policies))[(Some(address), entrypoint)]
  {
    if policies != [] {
      hide FormatHex, Meanings;
      MeaningsCons(parse, policies);
      var head := policies[0];
      var first := parse(head.contractAddress).value;
      CountCons(Meaning(parse, head), Meanings(parse, policies[1..]), (Some(address), entrypoint));
      CountCons(MakeEntry(first, head.entrypoint), ParseAll(parse, policies[1..]).value, MakeEntry(address, entrypoint));
      Multiplicity(parse, policies[1..], address, entrypoint);
    }
  }

  lemma CountCons<T>(x: T, rest: seq<T>, y: T)
    ensures multiset([x] + rest)[y] == multiset(rest)[y] + if x == y then 1 else 0
  {}

  /** Canonicalisation does not invent, lose or merge policies, and puts them in order. */
  lemma CanonicalForm(parse: Parser, policies: seq<SessionPolicy>)
    ensures Canonicalize(parse, policies).None? <==> exists m :: m in Meanings(parse, policies) && m.0.None?
    ensures Canonicalize(parse, policies).Some? ==>
              var canonical := Canonicalize(parse, policies).value;
              && |canonical| == |policies| && Sorted(canonical) && AllWellFormed(canonical)
              && (forall i, j :: 0 <= i < j < |canonical| ==>
                    canonical[i] == canonical[j] || Precedes(canonical[i], canonical[j]))
              && (forall i, j :: 0 <= i < j < |canonical| ==> canonical[i].address <= canonical[j].address)
              && (forall i :: 0 <= i < |canonical| ==> AddressText(canonical[i].addressHex, canonical[i].address))
              && forall address: Felt, entrypoint: bytes ::
                   multiset(canonical)[MakeEntry(address, entrypoint)]
                   == multiset(Meanings(parse, policies))[(Some(address), entrypoint)]
  {
    hide Sort, Precedes, AddressText, ParseAll, MakeEntry, Meanings, Sorted, AllWellFormed;
    ParseAllIff(parse, policies);
    if Canonicalize(parse, policies).Some? {
      var entries := ParseAll(parse, policies).value;
      SortSorted(entries);
      SortKeeps(entries);
      ParseAllLength(parse, policies);
      SortedPrecedes(Sort(entries));
      forall address: Felt, entrypoint: bytes
        ensures multiset(Sort(entries))[MakeEntry(address, entrypoint)]
             == multiset(Meanings(parse, policies))[(Some(address), entrypoint)]
      {
        Multiplicity(parse, policies, address, entrypoint);
      }
    }
  }

  /** Sorted entries in terms of addresses, letters and bytes. */
  lemma SortedPrecedes(s: seq<Entry>)
    requires Sorted(s) && AllWellFormed(s)
    ensures forall i, j :: 0 <= i < j < |s| ==> s[i] == s[j] || Precedes(s[i], s[j])
    ensures forall i, j :: 0 <= i < j < |s| ==> s[i].address <= s[j].address
    ensures forall i :: 0 <= i < |s| ==> AddressText(s[i].addressHex, s[i].address)
  {
    hide EntryCompare, FormatHex, AddressText;
    forall i, j | 0 <= i < j < |s| ensures s[i] == s[j] || Precedes(s[i], s[j]) {
      EntryCompareNumeric(s[i], s[j]);
      EntryCompareEqual(s[i], s[j]);
    }
    forall i | 0 <= i < |s| ensures AddressText(s[i].addressHex, s[i].address) {
      FormatHexIff(s[i].addressHex, s[i].address);
    }
  }

  lemma {:induction false} ParseAllLength(parse: Parser, policies: seq<SessionPolicy>)
    requires ParseAll(parse, policies).Some?
    ensures |ParseAll(parse, policies).value| == |policies|
  {
    if policies != [] {
      ParseAllLength(parse, policies[1..]);
    }
  }

  /** The canonical form depends on nothing but the collection of meanings, and determines it: two
      inputs have the same canonical form exactly when they mean the same policies equally often,
      whatever their order and the spelling of their addresses. */
  lemma CanonicalIff(parse: Parser, p: seq<SessionPolicy>, q: seq<SessionPolicy>)
    requires Canonicalize(parse, p).Some? && Canonicalize(parse, q).Some?
    ensures Canonicalize(parse, p) == Canonicalize(parse, q)
            <==> multiset(Meanings(parse, p)) == multiset(Meanings(parse, q))
  {
    CanonicalForm(parse, p);
    CanonicalForm(parse, q);
    var a, b := Canonicalize(parse, p).value, Canonicalize(parse, q).value;
    if multiset(Meanings(parse, p)) == multiset(Meanings(parse, q)) {
      forall e: Entry ensures multiset(a)[e] == multiset(b)[e] {
        if WellFormed(e) {
          assert e == MakeEntry(e.address, e.entrypoint);
        } else {
          assert e !in a && e !in b;
        }
      }
      assert multiset(a) == multiset(b);
      SortedUnique(a, b);
    }
    if a == b {
      forall m ensures multiset(Meanings(parse, p))[m] == multiset(Meanings(parse, q))[m] {
        match m
        case (Some(address), entrypoint) =>
          assert multiset(a)[MakeEntry(address, entrypoint)] == multiset(b)[MakeEntry(address, entrypoint)];
        case (None, _) => assert m !in Meanings(parse, p) && m !in Meanings(parse, q);
      }
    }
  }

  /** Equal meanings decide not only the canonical form but also whether there is one. */
  lemma DependsOnMeanings(parse: Parser, p: seq<SessionPolicy>, q: seq<SessionPolicy>)
    requires multiset(Meanings(parse, p)) == multiset(Meanings(parse, q))
    ensures Canonicalize(parse, p) == Canonicalize(parse, q)
  {
    ParseAllIff(parse, p);
    ParseAllIff(parse, q);
    MultisetMember(Meanings(parse, p), Meanings(parse, q));
    if Canonicalize(parse, p).Some? && Canonicalize(parse, q).Some? {
      CanonicalIff(parse, p, q);
    }
  }

  lemma MultisetAround<T>(a: seq<T>, x: T, b: seq<T>)
    ensures multiset(a + [x] + b) == multiset(a + b) + multiset{x}
  {}

  lemma MeaningsConcat(parse: Parser, a: seq<SessionPolicy>, b: seq<SessionPolicy>)
    ensures Meanings(parse, a + b) == Meanings(parse, a) + Meanings(parse, b)
  {}

  lemma MeaningsAround(parse: Parser, a: seq<SessionPolicy>, x: SessionPolicy, b: seq<SessionPolicy>)
    ensures multiset(Meanings(parse, a + [x] + b)) == multiset(Meanings(parse, a + b)) + multiset{Meaning(parse, x)}
  {
    assert Meanings(parse, [x]) == [Meaning(parse, x)];
    hide Meanings, Meaning;
    MeaningsConcat(parse, a, [x]);
    MeaningsConcat(parse, a + [x], b);
    MeaningsConcat(parse, a, b);
    MultisetAround(Meanings(parse, a), Meaning(parse, x), Meanings(parse, b));
  }

  lemma SplitAt<T>(q: seq<T>, x: T) returns (a: seq<T>, b: seq<T>)
    requires x in q
    ensures q == a + [x] + b
  {
    var i :| 0 <= i < |q| && q[i] == x;
    a, b := q[..i], q[i + 1..];
  }

  lemma Cancel<T>(m: multiset<T>, n: multiset<T>, x: T)
    requires m + multiset{x} == n + multiset{x}
    ensures m == n
  {
    assert m == (m + multiset{x}) - multiset{x} && n == (n + multiset{x}) - multiset{x};
  }

  /** Reordering policies reorders their meanings. */
  lemma {:induction false} MeaningsOfPermutation(parse: Parser, p: seq<SessionPolicy>, q: seq<SessionPolicy>)
    requires multiset(p) == multiset(q)
    ensures multiset(Meanings(parse, p)) == multiset(Meanings(parse, q))
  {
    hide Meanings, Meaning;
    if p == [] {
      MultisetMember(p, q);
      assert q == [];
    } else {
      MultisetMember(p, q);
      assert p[0] in p;
      var a, b := SplitAt(q, p[0]);
      assert p == [] + [p[0]] + p[1..] && [] + p[1..] == p[1..];
      assert multiset(p[1..]) == multiset(a + b) by {
        MultisetAround([], p[0], p[1..]);
        MultisetAround(a, p[0], b);
        Cancel(multiset(p[1..]), multiset(a + b), p[0]);
      }
      MeaningsAround(parse, [], p[0], p[1..]);
      MeaningsAround(parse, a, p[0], b);
      MeaningsOfPermutation(parse, p[1..], a + b);
    }
  }

  /** Reordering the input and then respelling its addresses changes nothing, not even whether it is
      accepted. */
  lemma PermutationInvariant(parse: Parser, p: seq<SessionPolicy>, reordered: seq<SessionPolicy>,
                             respelled: seq<SessionPolicy>)
    requires multiset(p) == multiset(reordered) && |reordered| == |respelled|
    requires forall i :: 0 <= i < |reordered| ==> Meaning(parse, reordered[i]) == Meaning(parse, respelled[i])
    ensures Canonicalize(parse, p) == Canonicalize(parse, respelled)
  {
    MeaningsOfPermutation(parse, p, reordered);
    assert Meanings(parse, reordered) == Meanings(parse, respelled);
    DependsOnMeanings(parse, p, respelled);
  }

  // ---------- What is registered and what is signed ----------

  function PayloadOf(e: Entry): Payload {
    Payload(e.addressHex, e.entrypoint)
  }

  /** The policy list of the registration URL. */
  function RegistrationPayload(parse: Parser, policies: seq<SessionPolicy>): Option<seq<Payload>> {
    match Canonicalize(parse, policies)
    case None => None
    case Some(entries) => Some(seq(|entries|, i requires 0 <= i < |entries| => PayloadOf(entries[i])))
  }

  /** One SDK policy per entry, or nothing if some entrypoint has no selector. */
  function SelectAll(selector: Selector, entries: seq<Entry>): Option<seq<SdkPolicy>> {
    if entries == [] then Some([]) else
    var last := entries[|entries| - 1];
    match (SelectAll(selector, entries[..|entries| - 1]), selector(last.entrypoint))
    case (Some(front), Some(s)) => Some(front + [SdkPolicy(last.address, s)])
    case _ => None
  }

  /** The policy list the session is made from. */
  function SdkPolicies(parse: Parser, selector: Selector, policies: seq<SessionPolicy>): Option<seq<SdkPolicy>> {
    match Canonicalize(parse, policies)
    case None => None
    case Some(entries) => SelectAll(selector, entries)
  }

  lemma {:induction false} SelectAllIff(selector: Selector, entries: seq<Entry>)
    ensures SelectAll(selector, entries).Some?
            <==> forall i :: 0 <= i < |entries| ==> selector(entries[i].entrypoint).Some?
    ensures SelectAll(selector, entries).Some? ==>
              var policies := SelectAll(selector, entries).value;
              && |policies| == |entries|
              && forall i :: 0 <= i < |entries| ==>
                   && policies[i].contractAddress == entries[i].address
                   && selector(entries[i].entrypoint) == Some(policies[i].selector)
  {
    if entries != [] {
      SelectAllIff(selector, entries[..|entries| - 1]);
    }
  }

  lemma SelectAllPrefix(selector: Selector, entries: seq<Entry>, k: nat)
    requires k <= |entries| && SelectAll(selector, entries).Some?
    ensures SelectAll(selector, entries[..k]).Some?
  {
    SelectAllIff(selector, entries);
    SelectAllIff(selector, entries[..k]);
  }

  /** The loop that builds the list, giving up at the first entrypoint without a selector. */
  method TryIntoSdkPolicies(parse: Parser, selector: Selector, policies: seq<SessionPolicy>)
    returns (r: Option<seq<SdkPolicy>>)
    ensures r == SdkPolicies(parse, selector, policies)
  {
    hide Canonicalize;
    var canonical := Canonicalize(parse, policies);
    if canonical.None? {
      return None;
    }
    var entries := canonical.value;
    var result: seq<SdkPolicy> := [];
    for k := 0 to |entries|
      invariant SelectAll(selector, entries[..k]) == Some(result)
    {
      assert entries[..k + 1][..k] == entries[..k];
      var s := selector(entries[k].entrypoint);
      if s.None? {
        if SelectAll(selector, entries).Some? {
          SelectAllPrefix(selector, entries, k + 1);
          assert false;
        }
        return None;
      }
      result := result + [SdkPolicy(entries[k].address, s.value)];
    }
    assert entries[..|entries|] == entries;
    r := Some(result);
  }

  /** The list that is registered and the list that is signed agree position by position, even when
      the two were made from differently ordered or differently spelled inputs: the i-th target spells the
      i-th address, the i-th method hashes to the i-th selector, and the addresses ascend. Signing fails
      exactly when an address denotes nothing or an entrypoint has no selector. */
  lemma SignedMatchesRegistered(parse: Parser, selector: Selector, p: seq<SessionPolicy>, q: seq<SessionPolicy>)
    requires multiset(Meanings(parse, p)) == multiset(Meanings(parse, q))
    ensures SdkPolicies(parse, selector, p).Some?
            <==> forall m :: m in Meanings(parse, q) ==> m.0.Some? && selector(m.1).Some?
    ensures SdkPolicies(parse, selector, p).Some? ==>
              && RegistrationPayload(parse, q).Some?
              && var signed, registered := SdkPolicies(parse, selector, p).value, RegistrationPayload(parse, q).value;
                 && |signed| == |registered| == |p| == |q|
                 && forall i :: 0 <= i < |signed| ==>
                      && AddressText(registered[i].target, signed[i].contractAddress)
                      && selector(registered[i].method_) == Some(signed[i].selector)
                      && (forall j :: i < j < |signed| ==> signed[i].contractAddress <= signed[j].contractAddress)
  {
    hide FormatHex, Sorted, SelectAll, AddressText, Precedes;
    DependsOnMeanings(parse, p, q);
    CanonicalForm(parse, q);
    MultisetMember(Meanings(parse, p), Meanings(parse, q));
    if Canonicalize(parse, q).Some? {
      var entries := Canonicalize(parse, q).value;
      SelectAllIff(selector, entries);
      SelectorsOfMeanings(parse, selector, q);
    }
  }

  /** The entrypoints of the canonical entries are those of the input. */
  lemma SelectorsOfMeanings(parse: Parser, selector: Selector, q: seq<SessionPolicy>)
    requires Canonicalize(parse, q).Some?
    ensures var entries := Canonicalize(parse, q).value;
            (forall i :: 0 <= i < |entries| ==> selector(entries[i].entrypoint).Some?)
            <==> (forall m :: m in Meanings(parse, q) ==> selector(m.1).Some?)
  {
    hide FormatHex, Sorted;
    CanonicalForm(parse, q);
    var entries := Canonicalize(parse, q).value;
    forall m | m in Meanings(parse, q) ensures MakeEntry(m.0.value, m.1) in entries {
      assert m in multiset(Meanings(parse, q));
      assert m == (Some(m.0.value), m.1);
      assert MakeEntry(m.0.value, m.1) in multiset(entries);
    }
    forall i | 0 <= i < |entries| ensures (Some(entries[i].address), entries[i].entrypoint) in Meanings(parse, q) {
      assert entries[i] == MakeEntry(entries[i].address, entries[i].entrypoint);
      assert entries[i] in multiset(entries);
      assert (Some(entries[i].address), entries[i].entrypoint) in multiset(Meanings(parse, q));
    }
  }

  /** The registered list, read back as policies. */
  function AsPolicies(payload: seq<Payload>): seq<SessionPolicy> {
    seq(|payload|, i requires 0 <= i < |payload| => SessionPolicy(payload[i].target, payload[i].method_))
  }

  /** Registering what was registered changes nothing, for any parser that reads back the formatted
      addresses: canonicalisation is idempotent. */
  lemma Idempotent(parse: Parser, policies: seq<SessionPolicy>)
    requires forall f: Felt :: parse(FormatHex(f)) == Some(f)
    requires RegistrationPayload(parse, policies).Some?
    ensures RegistrationPayload(parse, AsPolicies(RegistrationPayload(parse, policies).value))
         == RegistrationPayload(parse, policies)
  {
    CanonicalForm(parse, policies);
    var entries := Canonicalize(parse, policies).value;
    var again := AsPolicies(RegistrationPayload(parse, policies).value);
    ReparseCanonical(parse, entries, again);
    SortSorted(entries);
    SortedUnique(entries, Sort(entries));
  }

  lemma {:induction false} ReparseCanonical(parse: Parser, entries: seq<Entry>, again: seq<SessionPolicy>)
    requires forall f: Felt :: parse(FormatHex(f)) == Some(f)
    requires AllWellFormed(entries) && |again| == |entries|
    requires forall i :: 0 <= i < |again| ==> again[i] == SessionPolicy(entries[i].addressHex, entries[i].entrypoint)
    ensures ParseAll(parse, again) == Some(entries)
  {
    if again != [] {
      ReparseCanonical(parse, entries[1..], again[1..]);
      assert entries == [entries[0]] + entries[1..];
    }
  }

  /** The hexadecimal parser is one that reads back formatted addresses. */
  lemma IdempotentForHex(policies: seq<SessionPolicy>)
    requires RegistrationPayload(FromHex, policies).Some?
    ensures RegistrationPayload(FromHex, AsPolicies(RegistrationPayload(FromHex, policies).value))
         == RegistrationPayload(FromHex, policies)
  {
    forall f: Felt ensures FromHex(FormatHex(f)) == Some(f) {
      FromHexOfFormat(f);
    }
    Idempotent(FromHex, policies);
  }
}
