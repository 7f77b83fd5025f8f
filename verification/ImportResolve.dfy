/** Resolving a library's imports: by name or ordinal, from what is already known or by bulk lookup on the
    console. */
module ImportResolve {
  import opened Common
  import opened ImportSplit

  /** An import by name if it has one, else by ordinal. */
  datatype Import = Import(ordinal: u32, name: string, realAddress: u32)

  function Answered(imports: seq<Import>, addresses: (u32, u32) -> u32, x: Item): seq<Import>
    requires x.request.out < |imports|
  {
    var out := x.request.out;
    imports[out := imports[out].(realAddress := addresses(x.base, x.request.ordinal))]
  }

  /** What looking up a list of items writes into the imports, if the console answers in order. */
  function Resolved(imports: seq<Import>, addresses: (u32, u32) -> u32, items: seq<Item>): (r: seq<Import>)
    requires forall x | x in items :: x.request.out < |imports|
    ensures |r| == |imports|
    decreases |items|
  {
    if items == [] then imports
    else
      Resolved(Answered(imports, addresses, items[0]), addresses, items[1..])
  }

  ghost predicate Within(items: seq<Item>, n: nat) { forall x | x in items :: x.request.out < n }

  /** Each import is looked up at most once. */
  ghost predicate DistinctOuts(items: seq<Item>)
  {
    forall i, j | 0 <= i < j < |items| :: items[i].request.out != items[j].request.out
  }

  lemma {:induction false} ResolvedSplits(imports: seq<Import>, addresses: (u32, u32) -> u32, a: seq<Item>,
                                          b: seq<Item>)
    requires Within(a, |imports|) && Within(b, |imports|)
    ensures Within(a + b, |imports|)
    ensures Resolved(imports, addresses, a + b) == Resolved(Resolved(imports, addresses, a), addresses, b)
    decreases |a|
  {
    if a == [] {
      assert a + b == b;
    } else {
      var x := a[0];
      assert (a + b)[0] == x && (a + b)[1..] == a[1..] + b;
      var next := Answered(imports, addresses, x);
      ResolvedSplits(next, addresses, a[1..], b);
    }
  }

  /** Imports that are not looked up keep their address; all keep their name and ordinal. */
  lemma {:induction false} ResolvedElsewhere(imports: seq<Import>, addresses: (u32, u32) -> u32, items: seq<Item>,
                                             k: nat)
    requires Within(items, |imports|) && k < |imports|
    ensures var r := Resolved(imports, addresses, items);
            && r[k].ordinal == imports[k].ordinal && r[k].name == imports[k].name
            && ((forall x | x in items :: x.request.out != k) ==> r[k] == imports[k])
    decreases |items|
  {
    if items != [] {
      var x := items[0];
      var next := Answered(imports, addresses, x);
      ResolvedElsewhere(next, addresses, items[1..], k);
    }
  }

  /** Every import that is looked up gets the address of its own item. */
  lemma {:induction false} ResolvedAt(imports: seq<Import>, addresses: (u32, u32) -> u32, items: seq<Item>, i: nat)
    requires Within(items, |imports|) && DistinctOuts(items) && i < |items|
    ensures var x := items[i];
            Resolved(imports, addresses, items)[x.request.out].realAddress == addresses(x.base, x.request.ordinal)
    decreases |items|
  {
    var x := items[0];
    var next := Answered(imports, addresses, x);
    if i == 0 {
      ResolvedElsewhere(next, addresses, items[1..], x.request.out);
    } else {
      ResolvedAt(next, addresses, items[1..], i - 1);
    }
  }

  ghost predicate AllFound(addresses: (u32, u32) -> u32, items: seq<Item>)
  {
    forall x | x in items :: addresses(x.base, x.request.ordinal) != 0
  }

  // ---------------------------------------------------------------- requests

  /** The ordinal an import stands for, if its name can be looked up at all. */
  function OrdinalOf(i: Import, names: Option<map<string, u32>>): Option<u32>
    requires Known(i, names)
  {
    if i.name == "" then Some(i.ordinal) else if names.None? then None else Some(names.value[i.name])
  }

  /** A name that is missing from an existing table is not survived. */
  predicate Known(i: Import, names: Option<map<string, u32>>)
  {
    i.name != "" && names.Some? ==> i.name in names.value
  }

  lemma {:induction false} TaggedIs(base: u32, rs: seq<Request>, i: nat)
    requires i < |rs|
    ensures |Tagged(base, rs)| == |rs| && Tagged(base, rs)[i] == Item(base, rs[i])
  {
    TaggedLength(base, rs);
    if i > 0 { TaggedIs(base, rs[1..], i - 1); }
  }

  // ---------------------------------------------------------------- the loader

  class Loader {
    /** What the console has at each module base and ordinal, zero for nothing. */
    const addresses: (u32, u32) -> u32
    /** Whether it accepts each command. */
    const replies: nat -> bool
    var sent: nat

    constructor (addresses: (u32, u32) -> u32, replies: nat -> bool)
      ensures this.addresses == addresses && this.replies == replies && sent == 0
    {
      this.addresses, this.replies, sent := addresses, replies, 0;
    }

    /** The answer to a command, written out in the order in which it asked. */
    method ProcessResponse(imports: array<Import>, items: seq<Item>)
      requires Within(items, imports.Length)
      modifies imports
      ensures imports[..] == Resolved(old(imports[..]), addresses, items)
    {
      var i := 0;
      ghost var rest := items;
      while i < |items|
        invariant 0 <= i <= |items| && rest == items[i..] && Within(rest, imports.Length)
        invariant Resolved(imports[..], addresses, rest) == Resolved(old(imports[..]), addresses, items)
      {
        var x := items[i];
        assert x == rest[0];
        ghost var before := imports[..];
        imports[x.request.out] := imports[x.request.out].(realAddress := addresses(x.base, x.request.ordinal));
        assert imports[..] == Answered(before, addresses, x);
        rest := rest[1..];
        i := i + 1;
      }
    }

    /** Whether every lookup of a piece found something. */
    method AllResolved(imports: array<Import>, items: seq<Item>) returns (ok: bool)
      requires Within(items, imports.Length)
      ensures ok <==> forall i | 0 <= i < |items| :: imports[items[i].request.out].realAddress != 0
    {
      ok := true;
      for i := 0 to |items|
        invariant ok <==> forall k | 0 <= k < i :: imports[items[k].request.out].realAddress != 0
      {
        if imports[items[i].request.out].realAddress == 0 { ok := false; }
      }
    }

    method ResolvePiece(imports: array<Import>, items: seq<Item>) returns (ok: bool)
      requires Within(items, imports.Length) && DistinctOuts(items)
      modifies this, imports
      ensures sent == old(sent) + 1
      ensures ok <==> replies(old(sent)) && AllFound(addresses, items)
      ensures ok ==> imports[..] == Resolved(old(imports[..]), addresses, items)
    {
      ok := replies(sent);
      sent := sent + 1;
      if !ok { return false; }
      ProcessResponse(imports, items);
      ok := AllResolved(imports, items);
      forall i | 0 <= i < |items|
        ensures imports[items[i].request.out].realAddress == addresses(items[i].base, items[i].request.ordinal)
      {
        ResolvedAt(old(imports[..]), addresses, items, i);
        assert imports[..][items[i].request.out] == imports[items[i].request.out];
      }
    }

    /** The table is sent in pieces, but the imports end up as if it had been sent whole. */
    method BulkResolve(imports: array<Import>, table: Table) returns (ok: bool)
      requires Within(Items(table), imports.Length) && DistinctOuts(Items(table))
      modifies this, imports
      ensures ok ==> imports[..] == Resolved(old(imports[..]), addresses, Items(table))
      ensures ok ==> AllFound(addresses, Items(table))
      ensures sent >= old(sent)
      ensures (forall k | old(sent) <= k < sent :: replies(k)) ==> (ok <==> AllFound(addresses, Items(table)))
    {
      var pieces := SplitResolutionTable(table);
      SplitConserves(table);
      ghost var all, rest := Items(table), Items(table);
      ghost var result := Resolved(imports[..], addresses, all);
      var i := 0;
      while i < |pieces|
        invariant 0 <= i <= |pieces| && rest == AllItems(pieces[i..])
        invariant Within(rest, imports.Length) && DistinctOuts(rest)
        invariant AllFound(addresses, all) <==> AllFound(addresses, rest)
        invariant Resolved(imports[..], addresses, rest) == result
        invariant sent >= old(sent)
      {
        assert pieces[i..][1..] == pieces[i + 1..];
        ghost var items, later := Items(pieces[i]), AllItems(pieces[i + 1..]);
        assert rest == items + later;
        PartsOf(items, later, imports.Length);
        FoundSplits(addresses, items, later);
        ResolvedSplits(imports[..], addresses, items, later);
        ok := ResolvePiece(imports, Items(pieces[i]));
        if !ok { return false; }
        rest := later;
        i := i + 1;
      }
      return true;
    }

    /** The import is settled if its ordinal is known, and asked for otherwise. */
    method CollectOne(imports: array<Import>, i: nat, cache: map<u32, u32>, names: Option<map<string, u32>>)
      returns (ok: bool, asked: seq<Request>)
      requires i < imports.Length && Known(imports[i], names)
      modifies imports
      ensures ok <==> HasOrdinal(old(imports[i]), names)
      ensures !ok ==> names.None? && old(imports[i]).name != ""
      ensures ok ==> imports[i] == PreparedOne(old(imports[i]), cache, names)
      ensures ok ==> asked == var ordinal := Ordinal(old(imports[i]), names);
                              if ordinal in cache then [] else [Request(ordinal, i)]
      ensures forall k | 0 <= k < imports.Length && k != i :: imports[k] == old(imports[k])
    {
      var entry := OrdinalOf(imports[i], names);
      if entry.None? { return false, []; }
      var ordinal := entry.value;
      ok, asked := true, [];
      if ordinal in cache {
        imports[i] := imports[i].(realAddress := cache[ordinal]);
      } else {
        imports[i] := imports[i].(realAddress := 0);
        asked := [Request(ordinal, i)];
      }
    }

    /** Imports whose ordinal is already known are settled at once, the others are to be looked up. */
    method CollectRequests(imports: array<Import>, cache: map<u32, u32>, names: Option<map<string, u32>>)
      returns (ok: bool, requests: seq<Request>)
      requires forall k | 0 <= k < imports.Length :: Known(imports[k], names)
      modifies imports
      ensures ok <==> AllHaveOrdinals(old(imports[..]), names)
      ensures ok ==> imports[..] == Prepared(old(imports[..]), cache, names)
      ensures ok ==> requests == Lookups(old(imports[..]), |old(imports[..])|, cache, names)
      ensures ok ==> AllCollected(old(imports[..]), imports[..], cache, names, requests)
      ensures !ok ==> names.None? && exists k | 0 <= k < |old(imports[..])| :: old(imports[..])[k].name != ""
    {
      ghost var given := imports[..];
      requests := [];
      var i := 0;
      while i < imports.Length
        invariant 0 <= i <= imports.Length && |given| == imports.Length
        invariant forall k | 0 <= k < |given| :: Known(given[k], names)
        invariant forall k | i <= k < |given| :: imports[k] == given[k]
        invariant forall k | 0 <= k < i :: HasOrdinal(given[k], names)
        invariant forall k | 0 <= k < i :: imports[k] == PreparedOne(given[k], cache, names)
        invariant requests == Lookups(given, i, cache, names)
      {
        var asked;
        ok, asked := CollectOne(imports, i, cache, names);
        if !ok {
          return false, [];
        }
        requests := requests + asked;
        i := i + 1;
      }
      ok := true;
      PreparedCollects(given, cache, names);
    }

    /** Success means that every import has the address of its ordinal: the one already known, or the one
        the console has. If the console accepts every command, only a missing export or a missing table of
        names can prevent it. */
    method ResolveImports(imports: array<Import>, base: u32, cache: map<u32, u32>, names: Option<map<string, u32>>)
      returns (ok: bool)
      requires forall k | 0 <= k < imports.Length :: Known(imports[k], names)
      modifies this, imports
      ensures ok ==> AllImported(old(imports[..]), imports[..], base, cache, names, addresses)
      ensures ok ==> AllNamed(old(imports[..]), imports[..], base, cache, names, addresses)
      ensures sent >= old(sent)
      ensures (forall k | old(sent) <= k < sent :: replies(k)) ==>
                (ok <==> forall k | 0 <= k < |old(imports[..])| ::
                           Resolvable(old(imports[..])[k], base, cache, names, addresses))
    {
      ghost var given := imports[..];
      var requests: seq<Request>;
      ok, requests := CollectRequests(imports, cache, names);
      if !ok {
        NotAllResolvable(given, base, cache, names, addresses);
        return false;
      }
      ghost var prepared := imports[..];
      LookupsResolve(given, base, cache, names, addresses);
      if requests == [] {
        ByName(given, imports[..], base, cache, names, addresses);
        return true;
      }
      var table := [Block(base, requests)];
      ItemsOfOne(table[0]);
      ok := BulkResolve(imports, table);
      if ok { ByName(given, imports[..], base, cache, names, addresses); }
    }
  }

  // ---------------------------------------------------------------- which imports are looked up

  predicate HasOrdinal(i: Import, names: Option<map<string, u32>>)
  {
    Known(i, names) && OrdinalOf(i, names).Some?
  }

  predicate AllHaveOrdinals(imports: seq<Import>, names: Option<map<string, u32>>)
  {
    forall k | 0 <= k < |imports| :: HasOrdinal(imports[k], names)
  }

  function Ordinal(i: Import, names: Option<map<string, u32>>): u32
    requires HasOrdinal(i, names)
  {
    OrdinalOf(i, names).value
  }

  function PreparedOne(i: Import, cache: map<u32, u32>, names: Option<map<string, u32>>): Import
    requires HasOrdinal(i, names)
  {
    var ordinal := Ordinal(i, names);
    i.(realAddress := if ordinal in cache then cache[ordinal] else 0)
  }

  function Prepared(imports: seq<Import>, cache: map<u32, u32>, names: Option<map<string, u32>>): (r: seq<Import>)
    requires AllHaveOrdinals(imports, names)
    ensures |r| == |imports| && forall k | 0 <= k < |r| :: r[k] == PreparedOne(imports[k], cache, names)
  {
    seq(|imports|, k requires 0 <= k < |imports| => PreparedOne(imports[k], cache, names))
  }

  /** Lookups for the first `n` imports, in order. */
  function Lookups(imports: seq<Import>, n: nat, cache: map<u32, u32>, names: Option<map<string, u32>>): seq<Request>
    requires n <= |imports| && forall k | 0 <= k < n :: HasOrdinal(imports[k], names)
  {
    if n == 0 then []
    else
      var ordinal := Ordinal(imports[n - 1], names);
      Lookups(imports, n - 1, cache, names) + if ordinal in cache then [] else [Request(ordinal, n - 1)]
  }

  ghost predicate Wanted(imports: seq<Import>, cache: map<u32, u32>, names: Option<map<string, u32>>, r: Request)
  {
    && r.out < |imports| && HasOrdinal(imports[r.out], names)
    && Ordinal(imports[r.out], names) == r.ordinal && r.ordinal !in cache
  }

  /** Every request is for one of the first `n` imports, whose ordinal is not known yet, in order. */
  ghost predicate Orderly(imports: seq<Import>, n: nat, cache: map<u32, u32>, names: Option<map<string, u32>>,
                          rs: seq<Request>)
  {
    && (forall i | 0 <= i < |rs| :: rs[i].out < n && Wanted(imports, cache, names, rs[i]))
    && (forall i, j | 0 <= i < j < |rs| :: rs[i].out < rs[j].out)
  }

  lemma {:induction false} LookupsAre(imports: seq<Import>, n: nat, cache: map<u32, u32>, names: Option<map<string,
                                      u32>>)
    requires n <= |imports| && forall k | 0 <= k < n :: HasOrdinal(imports[k], names)
    ensures Orderly(imports, n, cache, names, Lookups(imports, n, cache, names))
  {
    if n > 0 {
      LookupsAre(imports, n - 1, cache, names);
      var before := Lookups(imports, n - 1, cache, names);
      var rs := Lookups(imports, n, cache, names);
      assert forall i | 0 <= i < |before| :: rs[i] == before[i];
    }
  }

  /** Every import whose ordinal is not known yet is asked for. */
  lemma {:induction false} LookupsCover(imports: seq<Import>, n: nat, cache: map<u32, u32>, names: Option<map<string,
                                        u32>>, k: nat)
    requires n <= |imports| && forall k | 0 <= k < n :: HasOrdinal(imports[k], names)
    requires k < n && Ordinal(imports[k], names) !in cache
    ensures Request(Ordinal(imports[k], names), k) in Lookups(imports, n, cache, names)
    decreases n
  {
    if k < n - 1 { LookupsCover(imports, n - 1, cache, names, k); }
  }

  // ---------------------------------------------------------------- what success means

  predicate SameImport(i: Import, j: Import) { i.ordinal == j.ordinal && i.name == j.name }

  function Expected(ordinal: u32, base: u32, cache: map<u32, u32>, addresses: (u32, u32) -> u32): u32
  {
    if ordinal in cache then cache[ordinal] else addresses(base, ordinal)
  }

  ghost predicate Imported(i: Import, r: Import, base: u32, cache: map<u32, u32>, names: Option<map<string, u32>>,
                           addresses: (u32, u32) -> u32)
  {
    && SameImport(i, r) && HasOrdinal(i, names)
    && r.realAddress == Expected(Ordinal(i, names), base, cache, addresses)
  }

  /** Every import keeps its name and ordinal and has the address expected of it. */
  ghost predicate AllImported(given: seq<Import>, result: seq<Import>, base: u32, cache: map<u32, u32>,
                              names: Option<map<string, u32>>, addresses: (u32, u32) -> u32)
  {
    && |result| == |given|
    && forall k | 0 <= k < |given| :: Imported(given[k], result[k], base, cache, names, addresses)
  }

  /** The ordinal an import stands for, said outright. */
  lemma OrdinalIs(i: Import, names: Option<map<string, u32>>)
    ensures HasOrdinal(i, names) <==> i.name == "" || (names.Some? && i.name in names.value)
    ensures HasOrdinal(i, names) ==> Ordinal(i, names) == if i.name == "" then i.ordinal else names.value[i.name]
  {
  }

  /** Import `k`, which stands for this ordinal, is settled from the cache or asked for. */
  predicate Collected(r: Import, k: nat, ordinal: u32, cache: map<u32, u32>, requests: seq<Request>)
  {
    if ordinal in cache then r.realAddress == cache[ordinal] && forall x | x in requests :: x.out != k
    else r.realAddress == 0 && Request(ordinal, k) in requests
  }

  /** Each import is collected under the ordinal it gives, or the one its name stands for. */
  ghost predicate AllCollected(given: seq<Import>, result: seq<Import>, cache: map<u32, u32>,
                               names: Option<map<string, u32>>, requests: seq<Request>)
  {
    && |result| == |given|
    && (forall k | 0 <= k < |given| && given[k].name == "" ::
          Collected(result[k], k, given[k].ordinal, cache, requests))
    && (forall k | 0 <= k < |given| && given[k].name != "" ::
          && names.Some? && given[k].name in names.value
          && Collected(result[k], k, names.value[given[k].name], cache, requests))
  }

  lemma PreparedCollects(given: seq<Import>, cache: map<u32, u32>, names: Option<map<string, u32>>)
    requires AllHaveOrdinals(given, names)
    ensures AllCollected(given, Prepared(given, cache, names), cache, names, Lookups(given, |given|, cache, names))
  {
    var result, requests := Prepared(given, cache, names), Lookups(given, |given|, cache, names);
    LookupsAre(given, |given|, cache, names);
    forall k | 0 <= k < |given|
      ensures HasOrdinal(given[k], names) && Collected(result[k], k, Ordinal(given[k], names), cache, requests)
    {
      if Ordinal(given[k], names) !in cache { LookupsCover(given, |given|, cache, names, k); }
    }
    forall k | 0 <= k < |given|
      ensures HasOrdinal(given[k], names)
      ensures Ordinal(given[k], names) == if given[k].name == "" then given[k].ordinal else names.value[given[k].name]
    {
      OrdinalIs(given[k], names);
    }
  }

  predicate HasAddress(r: Import, ordinal: u32, base: u32, cache: map<u32, u32>, addresses: (u32, u32) -> u32)
  {
    r.realAddress == if ordinal in cache then cache[ordinal] else addresses(base, ordinal)
  }

  /** An import by name has the address of the ordinal its name stands for, any other that of the ordinal it
      gives: the address already known, or the one the console has. */
  ghost predicate AllNamed(given: seq<Import>, result: seq<Import>, base: u32, cache: map<u32, u32>,
                           names: Option<map<string, u32>>, addresses: (u32, u32) -> u32)
  {
    && |result| == |given|
    && (forall k | 0 <= k < |given| && given[k].name == "" ::
          HasAddress(result[k], given[k].ordinal, base, cache, addresses))
    && (forall k | 0 <= k < |given| && given[k].name != "" ::
          && names.Some? && given[k].name in names.value
          && HasAddress(result[k], names.value[given[k].name], base, cache, addresses))
  }

  lemma ByName(given: seq<Import>, result: seq<Import>, base: u32, cache: map<u32, u32>,
               names: Option<map<string, u32>>, addresses: (u32, u32) -> u32)
    requires AllImported(given, result, base, cache, names, addresses)
    ensures AllNamed(given, result, base, cache, names, addresses)
  {
    forall k | 0 <= k < |given|
      ensures Imported(given[k], result[k], base, cache, names, addresses)
      ensures given[k].name == "" || (names.Some? && given[k].name in names.value)
      ensures Ordinal(given[k], names) == if given[k].name == "" then given[k].ordinal else names.value[given[k].name]
    {
      OrdinalIs(given[k], names);
    }
  }

  /** What is known agrees with the console. */
  ghost predicate Agrees(cache: map<u32, u32>, base: u32, addresses: (u32, u32) -> u32)
  {
    forall ordinal | ordinal in cache :: cache[ordinal] == addresses(base, ordinal)
  }

  /** If what is known agrees with the console, every import ends up with the console's address. */
  lemma ImportsAgree(given: seq<Import>, result: seq<Import>, base: u32, cache: map<u32, u32>,
                     names: Option<map<string, u32>>, addresses: (u32, u32) -> u32, k: nat)
    requires AllImported(given, result, base, cache, names, addresses) && Agrees(cache, base, addresses)
    requires k < |given|
    ensures HasOrdinal(given[k], names) && result[k].realAddress == addresses(base, Ordinal(given[k], names))
  {
    assert Imported(given[k], result[k], base, cache, names, addresses);
  }

  ghost predicate Resolvable(i: Import, base: u32, cache: map<u32, u32>, names: Option<map<string, u32>>,
                             addresses: (u32, u32) -> u32)
  {
    && HasOrdinal(i, names)
    && (Ordinal(i, names) in cache || addresses(base, Ordinal(i, names)) != 0)
  }

  lemma NotAllResolvable(imports: seq<Import>, base: u32, cache: map<u32, u32>, names: Option<map<string, u32>>,
                         addresses: (u32, u32) -> u32)
    requires !AllHaveOrdinals(imports, names)
    ensures !forall k | 0 <= k < |imports| :: Resolvable(imports[k], base, cache, names, addresses)
  {
    var k :| 0 <= k < |imports| && !HasOrdinal(imports[k], names);
    assert !Resolvable(imports[k], base, cache, names, addresses);
  }

  lemma ItemsAre(imports: seq<Import>, base: u32, cache: map<u32, u32>, names: Option<map<string, u32>>)
    requires AllHaveOrdinals(imports, names)
    ensures var rs := Lookups(imports, |imports|, cache, names);
            var items := Tagged(base, rs);
            && |items| == |rs| && (forall i | 0 <= i < |items| :: items[i] == Item(base, rs[i]))
            && Within(items, |imports|) && DistinctOuts(items)
            && forall x | x in items :: x.base == base && Wanted(imports, cache, names, x.request)
  {
    var rs := Lookups(imports, |imports|, cache, names);
    var items := Tagged(base, rs);
    LookupsAre(imports, |imports|, cache, names);
    TaggedLength(base, rs);
    forall i | 0 <= i < |rs|
      ensures items[i] == Item(base, rs[i])
    {
      TaggedIs(base, rs, i);
    }
    forall x | x in items
      ensures x.base == base && Wanted(imports, cache, names, x.request)
    {
      var i :| 0 <= i < |items| && items[i] == x;
      assert Wanted(imports, cache, names, rs[i]);
    }
  }

  lemma ImportResolved(i: Import, prepared: seq<Import>, items: seq<Item>, base: u32, cache: map<u32, u32>,
                       names: Option<map<string, u32>>, addresses: (u32, u32) -> u32, k: nat)
    requires HasOrdinal(i, names) && k < |prepared| && prepared[k] == PreparedOne(i, cache, names)
    requires Within(items, |prepared|) && DistinctOuts(items)
    requires Ordinal(i, names) in cache ==> forall x | x in items :: x.request.out != k
    requires Ordinal(i, names) !in cache ==> Item(base, Request(Ordinal(i, names), k)) in items
    ensures Imported(i, Resolved(prepared, addresses, items)[k], base, cache, names, addresses)
  {
    ResolvedElsewhere(prepared, addresses, items, k);
    if Ordinal(i, names) !in cache {
      var j :| 0 <= j < |items| && items[j] == Item(base, Request(Ordinal(i, names), k));
      ResolvedAt(prepared, addresses, items, j);
    }
  }

  /** The items asked for are those of the imports whose ordinal is not known yet. */
  lemma ItemFor(imports: seq<Import>, base: u32, cache: map<u32, u32>, names: Option<map<string, u32>>, k: nat)
    requires AllHaveOrdinals(imports, names) && k < |imports|
    ensures var items := Tagged(base, Lookups(imports, |imports|, cache, names));
            if Ordinal(imports[k], names) in cache then forall x | x in items :: x.request.out != k
            else Item(base, Request(Ordinal(imports[k], names), k)) in items
  {
    var rs := Lookups(imports, |imports|, cache, names);
    var items := Tagged(base, rs);
    ItemsAre(imports, base, cache, names);
    if Ordinal(imports[k], names) !in cache {
      LookupsCover(imports, |imports|, cache, names, k);
      var i :| 0 <= i < |rs| && rs[i] == Request(Ordinal(imports[k], names), k);
      assert items[i] in items;
    }
  }

  lemma FoundIff(imports: seq<Import>, base: u32, cache: map<u32, u32>, names: Option<map<string, u32>>,
                 addresses: (u32, u32) -> u32)
    requires AllHaveOrdinals(imports, names)
    ensures AllFound(addresses, Tagged(base, Lookups(imports, |imports|, cache, names))) <==>
            forall k | 0 <= k < |imports| :: Resolvable(imports[k], base, cache, names, addresses)
  {
    var rs := Lookups(imports, |imports|, cache, names);
    var items := Tagged(base, rs);
    ItemsAre(imports, base, cache, names);
    if AllFound(addresses, items) {
      forall k | 0 <= k < |imports|
        ensures Resolvable(imports[k], base, cache, names, addresses)
      {
        ItemFor(imports, base, cache, names, k);
      }
    }
    if forall k | 0 <= k < |imports| :: Resolvable(imports[k], base, cache, names, addresses) {
      forall x | x in items
        ensures addresses(x.base, x.request.ordinal) != 0
      {
        assert Resolvable(imports[x.request.out], base, cache, names, addresses);
      }
    }
  }

  /** All that is to be known about the lookups for a list of imports. */
  lemma LookupsResolve(imports: seq<Import>, base: u32, cache: map<u32, u32>, names: Option<map<string, u32>>,
                       addresses: (u32, u32) -> u32)
    requires AllHaveOrdinals(imports, names)
    ensures var rs := Lookups(imports, |imports|, cache, names);
            var items := Tagged(base, rs);
            && Within(items, |imports|) && DistinctOuts(items)
            && (rs == [] ==> items == [])
            && AllImported(imports, Resolved(Prepared(imports, cache, names), addresses, items),
                           base, cache, names, addresses)
            && (AllFound(addresses, items) <==>
                forall k | 0 <= k < |imports| :: Resolvable(imports[k], base, cache, names, addresses))
  {
    ItemsAre(imports, base, cache, names);
    var prepared, items := Prepared(imports, cache, names), Tagged(base, Lookups(imports, |imports|, cache, names));
    var r := Resolved(prepared, addresses, items);
    forall k | 0 <= k < |imports|
      ensures Imported(imports[k], r[k], base, cache, names, addresses)
    {
      ItemFor(imports, base, cache, names, k);
      ImportResolved(imports[k], prepared, items, base, cache, names, addresses, k);
    }
    FoundIff(imports, base, cache, names, addresses);
  }

  lemma PartsOf(a: seq<Item>, b: seq<Item>, n: nat)
    requires Within(a + b, n) && DistinctOuts(a + b)
    ensures Within(a, n) && Within(b, n) && DistinctOuts(a) && DistinctOuts(b)
  {
    var all := a + b;
    assert forall i | 0 <= i < |a| :: a[i] == all[i];
    assert forall i | 0 <= i < |b| :: b[i] == all[|a| + i];
    forall x | x in a + b || x in a || x in b
      ensures x in all
    {
    }
  }

  lemma FoundSplits(addresses: (u32, u32) -> u32, a: seq<Item>, b: seq<Item>)
    ensures AllFound(addresses, a + b) <==> AllFound(addresses, a) && AllFound(addresses, b)
  {
    if AllFound(addresses, a + b) {
      assert forall x | x in a :: x in a + b;
      assert forall x | x in b :: x in a + b;
    }
  }
}
