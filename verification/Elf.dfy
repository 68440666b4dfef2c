/**
 From preprocessed sections and symbols to the ELF tables: the encoder's writers, the sections, the
 interned dynamic symbol table and the relocation table.
 */
module Elf {
  import opened Bytes
  import opened Symbols

  /** A writer of the encoder: one section with the symbols attached to it. */
  datatype Writer = Writer(name: string, isText: bool, data: seq<byte>, symbols: seq<Symbol>)

  datatype Section = Section(name: string, isText: bool, data: seq<byte>)

  /** A symbol-table entry; entry 0 is the undefined symbol every ELF symbol table starts with. */
  datatype Entry = Entry(name: string, size: nat, section: nat)

  datatype Rela = Rela(offset: nat, symbol: nat, kind: Schema, addend: nat)

  const UNDEFINED := Entry("", 0, 0)

  // ----- which symbols reach the tables -----

  function WriterFor(data: map<string, seq<byte>>, key: string, symbols: seq<Symbol>): Writer
    requires key in data
  {
    Writer(key, key == CTRL_TEXT, data[key], symbols)
  }

  /** Symbols collected from the writers: those of a writer without data are dropped with it. */
  function Collected(writers: seq<Writer>): seq<Symbol> {
    if writers == [] then []
    else
      var last := writers[|writers| - 1];
      Collected(writers[..|writers| - 1]) + if last.data != [] then last.symbols else []
  }

  function SectionsOf(writers: seq<Writer>): seq<Section> {
    if writers == [] then []
    else
      var last := writers[|writers| - 1];
      SectionsOf(writers[..|writers| - 1]) +
      if last.data != [] then [Section(last.name, last.isText, last.data)] else []
  }

  ghost predicate EncodedAs(keys: seq<string>, data: map<string, seq<byte>>, syms: seq<Symbol>, writers: seq<Writer>)
    requires forall i :: 0 <= i < |keys| ==> keys[i] in data
  {
    && |writers| == |keys|
    && forall i :: 0 <= i < |keys| ==> writers[i] == WriterFor(data, keys[i], if i == 0 then syms else [])
  }

  /** All symbols hang on the first writer, so all are kept or all are lost with that one section. */
  lemma {:induction false} FirstSectionDecides(keys: seq<string>, data: map<string, seq<byte>>, syms: seq<Symbol>,
                                               writers: seq<Writer>)
    requires keys != [] && (forall i :: 0 <= i < |keys| ==> keys[i] in data) && EncodedAs(keys, data, syms, writers)
    ensures Collected(writers) == if data[keys[0]] != [] then syms else []
    decreases |keys|
  {
    var last := |keys| - 1;
    if last > 0 {
      FirstSectionDecides(keys[..last], data, syms, writers[..last]);
      assert writers[last].symbols == [];
    } else {
      assert writers[..0] == [];
    }
  }

  /** The sections are the table's entries with bytes, those very bytes, in the order of the keys; the
      control code alone is text. */
  ghost predicate CarriesTable(sections: seq<Section>, keys: seq<string>, data: map<string, seq<byte>>) {
    && (forall i :: 0 <= i < |sections| ==> CarriesEntry(sections[i], data))
    && (forall key :: key in data && data[key] != [] ==> SectionExists(sections, key))
    && (forall i, j :: 0 <= i < j < |sections| ==> sections[i].name != sections[j].name)
    && forall i, j, a, b :: NamedAs(sections, i, keys, a) && NamedAs(sections, j, keys, b) ==> (i < j <==> a < b)
  }

  predicate NamedAs(sections: seq<Section>, i: int, keys: seq<string>, a: int) {
    0 <= i < |sections| && 0 <= a < |keys| && sections[i].name == keys[a]
  }

  predicate CarriesEntry(section: Section, data: map<string, seq<byte>>) {
    && section.name in data && section.data == data[section.name] != []
    && (section.isText <==> section.name == ".ctrltext")
  }

  /** Section i comes from writer from[i]: the writers with data, each once and in order. */
  ghost predicate FromWriters(sections: seq<Section>, writers: seq<Writer>, from: seq<nat>) {
    && |from| == |sections|
    && (forall i, j :: 0 <= i < j < |from| ==> from[i] < from[j])
    && (forall i :: 0 <= i < |from| ==> from[i] < |writers| && FromWriter(sections[i], writers[from[i]]))
    && forall k :: 0 <= k < |writers| && writers[k].data != [] ==> k in from
  }

  lemma {:induction false} SectionWriters(writers: seq<Writer>) returns (from: seq<nat>)
    ensures FromWriters(SectionsOf(writers), writers, from)
    decreases |writers|
  {
    from := [];
    if writers != [] {
      var front, last := writers[..|writers| - 1], writers[|writers| - 1];
      from := SectionWriters(front);
      if last.data == [] {
        WithoutSection(SectionsOf(front), front, from, last);
      } else {
        OneMoreSection(SectionsOf(front), front, from, last);
        from := from + [|front|];
      }
      assert front + [last] == writers;
    }
  }

  lemma WithoutSection(sections: seq<Section>, writers: seq<Writer>, from: seq<nat>, last: Writer)
    requires FromWriters(sections, writers, from) && last.data == []
    ensures FromWriters(sections + [], writers + [last], from)
  {
    hide FromWriter;
    assert sections + [] == sections;
  }

  lemma OneMoreSection(sections: seq<Section>, writers: seq<Writer>, from: seq<nat>, last: Writer)
    requires FromWriters(sections, writers, from) && last.data != []
    ensures FromWriters(sections + [Section(last.name, last.isText, last.data)], writers + [last],
                        from + [|writers|])
  {
    var section := Section(last.name, last.isText, last.data);
    assert FromWriter(section, last);
    hide FromWriter;
  }

  predicate FromWriter(section: Section, writer: Writer) {
    section.name == writer.name && section.data == writer.data != [] && section.isText == writer.isText
  }

  /** What the writer makes of an encoded table. */
  lemma SectionsCarryTable(keys: seq<string>, data: map<string, seq<byte>>, syms: seq<Symbol>, writers: seq<Writer>)
    requires Order(keys, data) && EncodedAs(keys, data, syms, writers)
    ensures CarriesTable(SectionsOf(writers), keys, data)
  {
    hide SectionsOf, SectionExists, FromWriters, EncodedAs, CarriesEntry;
    var sections := SectionsOf(writers);
    var from := SectionWriters(writers);
    IncreasingFrom(sections, writers, from);
    forall i | 0 <= i < |sections|
      ensures 0 <= from[i] < |keys| && sections[i].name == keys[from[i]] && CarriesEntry(sections[i], data)
    {
      EntryOfSection(keys, data, syms, writers, sections, from, i);
    }
    forall key | key in data && data[key] != [] ensures SectionExists(sections, key) {
      SectionOfEntry(keys, data, syms, writers, sections, from, key);
    }
  }

  lemma EntryOfSection(keys: seq<string>, data: map<string, seq<byte>>, syms: seq<Symbol>, writers: seq<Writer>,
                       sections: seq<Section>, from: seq<nat>, i: nat)
    requires Order(keys, data) && EncodedAs(keys, data, syms, writers) && FromWriters(sections, writers, from)
    requires i < |sections|
    ensures from[i] < |keys| && sections[i].name == keys[from[i]] && CarriesEntry(sections[i], data)
  {
    assert FromWriter(sections[i], writers[from[i]]);
  }

  lemma SectionOfEntry(keys: seq<string>, data: map<string, seq<byte>>, syms: seq<Symbol>, writers: seq<Writer>,
                       sections: seq<Section>, from: seq<nat>, key: string)
    requires Order(keys, data) && EncodedAs(keys, data, syms, writers) && FromWriters(sections, writers, from)
    requires key in data && data[key] != []
    ensures SectionExists(sections, key)
  {
    var k :| 0 <= k < |keys| && keys[k] == key;
    assert writers[k].data != [];
    var i :| 0 <= i < |from| && from[i] == k;
    assert FromWriter(sections[i], writers[from[i]]);
  }

  lemma IncreasingFrom(sections: seq<Section>, writers: seq<Writer>, from: seq<nat>)
    requires FromWriters(sections, writers, from)
    ensures |from| == |sections| && forall i, j :: 0 <= i < j < |from| ==> from[i] < from[j]
  {
  }

  ghost predicate Order(keys: seq<string>, data: map<string, seq<byte>>) {
    && (forall i :: 0 <= i < |keys| ==> keys[i] in data)
    && (forall key :: key in data ==> key in keys)
    && forall i, j :: 0 <= i < j < |keys| ==> keys[i] != keys[j]
  }

  lemma {:induction false} OrderOf(data: map<string, seq<byte>>) returns (keys: seq<string>)
    ensures Order(keys, data)
    decreases |data|
  {
    if data == map[] {
      keys := [];
    } else {
      var key :| key in data;
      var rest := OrderOf(data - {key});
      keys := [key] + rest;
      forall k | k in data ensures k in keys {
        if k != key {
          assert k in data - {key};
        }
      }
    }
  }

  /** Whatever the iteration order of the section table, the symbols survive. */
  ghost predicate SurvivesEveryOrder(data: map<string, seq<byte>>, syms: seq<Symbol>) {
    forall keys, writers :: Order(keys, data) && EncodedAs(keys, data, syms, writers) ==> Collected(writers) == syms
  }

  lemma LostInSomeOrder(data: map<string, seq<byte>>, syms: seq<Symbol>, key: string)
    requires syms != [] && key in data && data[key] == []
    ensures !SurvivesEveryOrder(data, syms)
  {
    hide Collected;
    var rest := OrderOf(data - {key});
    var keys := [key] + rest;
    OrderFrom(key, rest, data);
    var writers := seq(|keys|, i requires 0 <= i < |keys| => WriterFor(data, keys[i], if i == 0 then syms else []));
    FirstSectionDecides(keys, data, syms, writers);
    assert EncodedAs(keys, data, syms, writers);
  }

  /** Symbols survive every iteration order of the section table exactly when no section is empty. */
  lemma NoSymbolLost(data: map<string, seq<byte>>, syms: seq<Symbol>)
    requires syms != [] && data != map[]
    ensures SurvivesEveryOrder(data, syms) <==> forall key :: key in data ==> data[key] != []
  {
    hide Collected;
    if key :| key in data && data[key] == [] {
      LostInSomeOrder(data, syms, key);
    } else {
      forall keys, writers | Order(keys, data) && EncodedAs(keys, data, syms, writers)
        ensures Collected(writers) == syms
      {
        NonEmptyOrder(keys, data);
        FirstSectionDecides(keys, data, syms, writers);
      }
    }
  }

  lemma NonEmptyOrder(keys: seq<string>, data: map<string, seq<byte>>)
    requires Order(keys, data) && data != map[]
    ensures keys != []
  {
    var key :| key in data;
    assert key in keys;
  }

  lemma OrderFrom(key: string, rest: seq<string>, data: map<string, seq<byte>>)
    requires key in data && Order(rest, data - {key})
    ensures Order([key] + rest, data)
  {
    var keys := [key] + rest;
    forall k | k in data ensures k in keys {
      if k != key {
        assert k in data - {key};
      }
    }
  }

  // ----- interning -----

  datatype Triple = Triple(section: string, name: string, size: nat)

  function TripleOf(sym: Symbol): Triple { Triple(sym.section, sym.name, sym.size) }

  /** The key the writer joins with underscores. */
  function Key(t: Triple): string { t.section + "_" + t.name + "_" + Decimal(t.size) }

  lemma SplitAtLast(a: string, b: string, c: string, d: string)
    requires a + "_" + b == c + "_" + d && '_' !in b && '_' !in d
    ensures a == c && b == d
  {
    var s, t := a + "_" + b, c + "_" + d;
    assert s[|a|] == '_' && t[|c|] == '_';
    assert forall i :: |a| < i < |s| ==> s[i] == b[i - |a| - 1];
    assert forall i :: |c| < i < |t| ==> t[i] == d[i - |c| - 1];
    assert |a| == |c|;
    assert s[..|a|] == a && t[..|c|] == c;
    assert s[|a| + 1..] == b && t[|c| + 1..] == d;
  }

  /** Names without underscores make the joined key injective; section names may contain them. */
  lemma KeyInjective(t: Triple, u: Triple)
    requires '_' !in t.name && '_' !in u.name && Key(t) == Key(u)
    ensures t == u
  {
    SplitAtLast(t.section + "_" + t.name, Decimal(t.size), u.section + "_" + u.name, Decimal(u.size));
    SplitAtLast(t.section, t.name, u.section, u.name);
    DecimalInjective(t.size, u.size);
  }

  /** With an underscore in a name two different symbols can share a key. */
  lemma UnderscoreCollides()
    ensures Triple("a", "b_c", 0) != Triple("a_b", "c", 0)
    ensures Key(Triple("a", "b_c", 0)) == Key(Triple("a_b", "c", 0))
  {
    assert "a" + "_" + "b_c" == "a_b" + "_" + "c";
  }

  /** The distinct triples of a symbol list, in order of first occurrence. */
  function Distinct(syms: seq<Symbol>): seq<Triple> {
    if syms == [] then []
    else
      var before, t := Distinct(syms[..|syms| - 1]), TripleOf(syms[|syms| - 1]);
      if t in before then before else before + [t]
  }

  lemma {:induction false} DistinctIsExact(syms: seq<Symbol>)
    ensures forall i, j :: 0 <= i < j < |Distinct(syms)| ==> Distinct(syms)[i] != Distinct(syms)[j]
    ensures forall t :: t in Distinct(syms) <==> exists i :: 0 <= i < |syms| && TripleOf(syms[i]) == t
  {
    if syms != [] {
      var rest := syms[..|syms| - 1];
      DistinctIsExact(rest);
      forall t ensures t in Distinct(syms) <==> exists i :: 0 <= i < |syms| && TripleOf(syms[i]) == t {
        if i :| 0 <= i < |syms| && TripleOf(syms[i]) == t {
          assert i < |rest| ==> rest[i] == syms[i];
        }
        if t in Distinct(rest) {
          var i :| 0 <= i < |rest| && TripleOf(rest[i]) == t;
          assert syms[i] == rest[i];
        } else if t == TripleOf(syms[|syms| - 1]) {
          assert TripleOf(syms[|syms| - 1]) == t;
        }
      }
    }
  }

  /** As many entries as there are distinct triples. */
  lemma {:induction false} DistinctCount(ts: seq<Triple>)
    requires forall i, j :: 0 <= i < j < |ts| ==> ts[i] != ts[j]
    ensures |set t | t in ts| == |ts|
  {
    if ts != [] {
      var rest, last := ts[..|ts| - 1], ts[|ts| - 1];
      DistinctCount(rest);
      assert (set t | t in ts) == (set t | t in rest) + {last};
      assert last !in rest;
    }
  }

  // ----- one entry a key -----

  function KeyOf(sym: Symbol): string { Key(TripleOf(sym)) }

  /** The first symbol with the key of symbol i: the one whose entry symbol i uses. */
  function Owner(syms: seq<Symbol>, i: nat): (j: nat)
    requires i < |syms|
    ensures j <= i && KeyOf(syms[j]) == KeyOf(syms[i])
    ensures forall n :: 0 <= n < j ==> KeyOf(syms[n]) != KeyOf(syms[i])
  {
    OwnerFrom(syms, i, 0)
  }

  function OwnerFrom(syms: seq<Symbol>, i: nat, from: nat): (j: nat)
    requires from <= i < |syms|
    requires forall n :: 0 <= n < from ==> KeyOf(syms[n]) != KeyOf(syms[i])
    ensures j <= i && KeyOf(syms[j]) == KeyOf(syms[i])
    ensures forall n :: 0 <= n < j ==> KeyOf(syms[n]) != KeyOf(syms[i])
    decreases i - from
  {
    if KeyOf(syms[from]) == KeyOf(syms[i]) then from else OwnerFrom(syms, i, from + 1)
  }

  /** The triples of the owners, in order: one entry for each distinct key. */
  function Interned(syms: seq<Symbol>): seq<Triple> {
    if syms == [] then []
    else
      var before, last := Interned(syms[..|syms| - 1]), |syms| - 1;
      if Owner(syms, last) == last then before + [TripleOf(syms[last])] else before
  }

  /** Symbols with the same key have the same section, name and size. */
  ghost predicate NoCollision(syms: seq<Symbol>) {
    forall i, j :: 0 <= i < j < |syms| && KeyOf(syms[i]) == KeyOf(syms[j]) ==> TripleOf(syms[i]) == TripleOf(syms[j])
  }

  lemma CleanNamesCannotCollide(syms: seq<Symbol>)
    requires CleanNames(syms)
    ensures NoCollision(syms)
  {
    hide Key;
    forall i, j | 0 <= i < j < |syms| && KeyOf(syms[i]) == KeyOf(syms[j])
      ensures TripleOf(syms[i]) == TripleOf(syms[j])
    {
      KeyInjective(TripleOf(syms[i]), TripleOf(syms[j]));
    }
  }

  /** Every symbol uses an entry with its own section, name and size exactly when no two keys collide. */
  lemma OwnEntryExact(syms: seq<Symbol>)
    ensures (forall i :: 0 <= i < |syms| ==> TripleOf(syms[Owner(syms, i)]) == TripleOf(syms[i])) <==> NoCollision(syms)
  {
    hide Key, Owner;
    if forall i :: 0 <= i < |syms| ==> TripleOf(syms[Owner(syms, i)]) == TripleOf(syms[i]) {
      forall i, j | 0 <= i < j < |syms| && KeyOf(syms[i]) == KeyOf(syms[j])
        ensures TripleOf(syms[i]) == TripleOf(syms[j])
      {
        assert Owner(syms, i) == Owner(syms, j) by { OneOwner(syms, i, j); }
      }
    }
  }

  lemma OneOwner(syms: seq<Symbol>, i: nat, j: nat)
    requires i <= j < |syms| && KeyOf(syms[i]) == KeyOf(syms[j])
    ensures Owner(syms, i) == Owner(syms, j)
  {
    hide Key;
    OwnerIsFirst(syms, j, Owner(syms, i));
    OwnerIsFirst(syms, i, Owner(syms, j));
  }

  lemma OwnerIsFirst(syms: seq<Symbol>, i: nat, n: nat)
    requires i < |syms| && n < |syms| && KeyOf(syms[n]) == KeyOf(syms[i])
    ensures Owner(syms, i) <= n
  {
    hide Key;
  }

  /** Without collisions the entries are the distinct triples. */
  lemma {:induction false} InternedIsDistinct(syms: seq<Symbol>)
    requires NoCollision(syms)
    ensures Interned(syms) == Distinct(syms)
  {
    hide Key, Owner;
    if syms != [] {
      var rest, last := syms[..|syms| - 1], |syms| - 1;
      assert forall i :: 0 <= i < |rest| ==> rest[i] == syms[i];
      InternedIsDistinct(rest);
      DistinctIsExact(rest);
      if Owner(syms, last) != last {
        assert TripleOf(rest[Owner(syms, last)]) == TripleOf(syms[last]);
      } else {
        forall i | 0 <= i < |rest| ensures TripleOf(rest[i]) != TripleOf(syms[last]) {
          assert KeyOf(syms[i]) != KeyOf(syms[last]);
        }
      }
    }
  }

  function SectionIndex(sections: seq<Section>, name: string): (i: nat)
    requires exists k :: 0 <= k < |sections| && sections[k].name == name
    ensures i < |sections| && sections[i].name == name
    decreases |sections|
  {
    if sections[0].name == name then 0
    else
      assert exists k :: 0 <= k < |sections[1..]| && sections[1..][k].name == name by {
        var k :| 0 <= k < |sections| && sections[k].name == name;
        assert sections[1..][k - 1] == sections[k];
      }
      1 + SectionIndex(sections[1..], name)
  }

  /** The section of every entry exists; the writer dereferences the section it looks up by name. */
  ghost predicate OwnersPlaced(sections: seq<Section>, syms: seq<Symbol>) {
    forall i :: 0 <= i < |syms| && Owner(syms, i) == i ==> SectionExists(sections, syms[i].section)
  }

  ghost predicate SectionExists(sections: seq<Section>, name: string) {
    exists k :: 0 <= k < |sections| && sections[k].name == name
  }

  ghost predicate CleanNames(syms: seq<Symbol>) {
    forall i :: 0 <= i < |syms| ==> '_' !in syms[i].name
  }

  /** The table stands for the given triples, one entry each, after the undefined symbol. */
  ghost predicate TableFor(sections: seq<Section>, ts: seq<Triple>, table: seq<Entry>) {
    && |table| == |ts| + 1 && table[0] == UNDEFINED
    && forall j :: 0 <= j < |ts| ==>
         && SectionExists(sections, ts[j].section)
         && table[j + 1] == Entry(ts[j].name, ts[j].size, SectionIndex(sections, ts[j].section))
  }

  // ----- the writer's hash map -----

  /** The map takes the key of each symbol so far to the index of its owner's entry, and has no other. */
  ghost predicate HashMatches(ts: seq<Triple>, syms: seq<Symbol>, hash: map<string, nat>) {
    && (forall i :: 0 <= i < |syms| ==> KeyOf(syms[i]) in hash)
    && forall key :: key in hash ==> InternedAs(ts, syms, key, hash[key])
  }

  /** Index `index` of the table is the entry of the first symbol with this key. */
  ghost predicate InternedAs(ts: seq<Triple>, syms: seq<Symbol>, key: string, index: nat) {
    && 1 <= index <= |ts|
    && exists i :: 0 <= i < |syms| && KeyOf(syms[i]) == key && Owner(syms, i) == i && ts[index - 1] == TripleOf(syms[i])
  }

  lemma {:induction false} OwnerInPrefix(syms: seq<Symbol>, n: nat, i: nat)
    requires i < n <= |syms|
    ensures Owner(syms[..n], i) == Owner(syms, i)
  {
    hide Key;
    OwnerIsFirst(syms, i, Owner(syms[..n], i));
    OwnerIsFirst(syms[..n], i, Owner(syms, i));
  }

  lemma InternedSnoc(syms: seq<Symbol>, i: nat)
    requires i < |syms|
    ensures Interned(syms[..i + 1]) ==
            Interned(syms[..i]) + if Owner(syms, i) == i then [TripleOf(syms[i])] else []
  {
    hide KeyOf, Owner;
    assert syms[..i + 1][..i] == syms[..i];
    OwnerInPrefix(syms, i + 1, i);
  }

  lemma InternedAsGrows(ts: seq<Triple>, more: seq<Triple>, syms: seq<Symbol>, n: nat, key: string, index: nat)
    requires n < |syms| && InternedAs(ts, syms[..n], key, index) && ts <= more
    ensures InternedAs(more, syms[..n + 1], key, index)
  {
    hide KeyOf, Owner;
    var i :| 0 <= i < n && KeyOf(syms[..n][i]) == key && Owner(syms[..n], i) == i
             && ts[index - 1] == TripleOf(syms[..n][i]);
    OwnerInPrefix(syms, n, i);
    OwnerInPrefix(syms, n + 1, i);
    assert syms[..n + 1][i] == syms[..n][i];
  }

  /** Looking symbol n up: its key is there exactly when an earlier symbol owns it. */
  lemma HashFinds(syms: seq<Symbol>, n: nat, hash: map<string, nat>)
    requires n < |syms| && HashMatches(Interned(syms[..n]), syms[..n], hash)
    ensures KeyOf(syms[n]) in hash <==> Owner(syms, n) != n
  {
    hide Key, Owner, InternedAs;
    if Owner(syms, n) < n {
      assert syms[..n][Owner(syms, n)] == syms[Owner(syms, n)];
    } else if KeyOf(syms[n]) in hash {
      SomeSymbol(Interned(syms[..n]), syms[..n], KeyOf(syms[n]), hash[KeyOf(syms[n])]);
    }
  }

  lemma SomeSymbol(ts: seq<Triple>, syms: seq<Symbol>, key: string, index: nat)
    requires InternedAs(ts, syms, key, index)
    ensures exists i :: 0 <= i < |syms| && KeyOf(syms[i]) == key
  {
  }

  /** The map after symbol n has been interned. */
  lemma HashGrows(syms: seq<Symbol>, n: nat, hash: map<string, nat>)
    requires n < |syms| && HashMatches(Interned(syms[..n]), syms[..n], hash)
    ensures var ts, key := Interned(syms[..n]), KeyOf(syms[n]);
            HashMatches(Interned(syms[..n + 1]), syms[..n + 1], if key in hash then hash else hash[key := |ts| + 1])
  {
    hide KeyOf, Owner, Interned, InternedAs;
    var ts, more, key := Interned(syms[..n]), Interned(syms[..n + 1]), KeyOf(syms[n]);
    var next := if key in hash then hash else hash[key := |ts| + 1];
    HashFinds(syms, n, hash);
    InternedSnoc(syms, n);
    var longer := syms[..n + 1];
    forall i | 0 <= i < |longer| ensures KeyOf(longer[i]) in next {
      assert i < n ==> longer[i] == syms[..n][i];
    }
    forall k | k in next ensures InternedAs(more, longer, k, next[k]) {
      if k in hash {
        InternedAsGrows(ts, more, syms, n, k, hash[k]);
      } else {
        NewestInterned(ts, syms, n);
      }
    }
  }

  lemma NewestInterned(ts: seq<Triple>, syms: seq<Symbol>, n: nat)
    requires n < |syms| && Owner(syms, n) == n
    ensures InternedAs(ts + [TripleOf(syms[n])], syms[..n + 1], KeyOf(syms[n]), |ts| + 1)
  {
    hide KeyOf, Owner;
    OwnerInPrefix(syms, n + 1, n);
    assert syms[..n + 1][n] == syms[n];
  }

  /** Every symbol is unchanged but for its index, which leads to its owner's triple. */
  ghost predicate Indexed(ts: seq<Triple>, syms: seq<Symbol>, indexed: seq<Symbol>) {
    && |indexed| == |syms|
    && forall i :: 0 <= i < |syms| ==>
         && indexed[i] == syms[i].(index := indexed[i].index)
         && 1 <= indexed[i].index <= |ts| && ts[indexed[i].index - 1] == TripleOf(syms[Owner(syms, i)])
  }

  /** Symbols with one key share one index. */
  ghost predicate Shared(syms: seq<Symbol>, indexed: seq<Symbol>)
    requires |indexed| == |syms|
  {
    forall i, j :: 0 <= i < j < |syms| && KeyOf(syms[i]) == KeyOf(syms[j]) ==> indexed[i].index == indexed[j].index
  }

  /** The indexes given so far are those the map holds. */
  ghost predicate FromHash(syms: seq<Symbol>, indexed: seq<Symbol>, hash: map<string, nat>)
    requires |indexed| == |syms|
  {
    forall i :: 0 <= i < |syms| ==> KeyOf(syms[i]) in hash && indexed[i] == syms[i].(index := hash[KeyOf(syms[i])])
  }

  lemma FromHashGrows(syms: seq<Symbol>, n: nat, indexed: seq<Symbol>, hash: map<string, nat>, next: map<string, nat>)
    requires n < |syms| && |indexed| == n && FromHash(syms[..n], indexed, hash)
    requires forall key :: key in hash ==> key in next && next[key] == hash[key]
    requires KeyOf(syms[n]) in next
    ensures FromHash(syms[..n + 1], indexed + [syms[n].(index := next[KeyOf(syms[n])])], next)
  {
    hide KeyOf;
    forall i | 0 <= i < n ensures syms[..n + 1][i] == syms[..n][i] {
    }
  }

  /** Where the map is right the indexes are. */
  lemma FromHashIndexed(syms: seq<Symbol>, indexed: seq<Symbol>, hash: map<string, nat>)
    requires |indexed| == |syms| && FromHash(syms, indexed, hash) && HashMatches(Interned(syms), syms, hash)
    ensures Indexed(Interned(syms), syms, indexed) && Shared(syms, indexed)
  {
    hide KeyOf, Owner, Interned, InternedAs;
    forall i | 0 <= i < |syms|
      ensures 1 <= indexed[i].index <= |Interned(syms)|
      ensures Interned(syms)[indexed[i].index - 1] == TripleOf(syms[Owner(syms, i)])
    {
      OwnersEntry(Interned(syms), syms, i, hash[KeyOf(syms[i])]);
    }
  }

  lemma OwnersEntry(ts: seq<Triple>, syms: seq<Symbol>, i: nat, index: nat)
    requires i < |syms| && InternedAs(ts, syms, KeyOf(syms[i]), index)
    ensures 1 <= index <= |ts| && ts[index - 1] == TripleOf(syms[Owner(syms, i)])
  {
    hide Key, Owner;
    var j :| 0 <= j < |syms| && KeyOf(syms[j]) == KeyOf(syms[i]) && Owner(syms, j) == j
             && ts[index - 1] == TripleOf(syms[j]);
    if i <= j {
      OneOwner(syms, i, j);
    } else {
      OneOwner(syms, j, i);
    }
  }

  lemma StartTable(sections: seq<Section>, syms: seq<Symbol>)
    ensures syms[..0] == [] && TableFor(sections, Interned([]), [UNDEFINED]) && HashMatches(Interned([]), [], map[])
    ensures FromHash([], [], map[])
  {
  }

  lemma TableGrows(sections: seq<Section>, syms: seq<Symbol>, n: nat, table: seq<Entry>)
    requires n < |syms| && OwnersPlaced(sections, syms) && TableFor(sections, Interned(syms[..n]), table)
    ensures |table| == |Interned(syms[..n])| + 1
    ensures Owner(syms, n) == n ==>
              && SectionExists(sections, syms[n].section)
              && TableFor(sections, Interned(syms[..n + 1]),
                          table + [Entry(syms[n].name, syms[n].size, SectionIndex(sections, syms[n].section))])
    ensures Owner(syms, n) != n ==> TableFor(sections, Interned(syms[..n + 1]), table)
  {
    hide SectionIndex, SectionExists, Owner, Interned;
    InternedSnoc(syms, n);
  }

  class ElfWriter {
    var sections: seq<Section>
    var dynsym: seq<Entry>
    var rela: seq<Rela>

    constructor ()
      ensures sections == [] && dynsym == [] && rela == []
    {
      sections, dynsym, rela := [], [], [];
    }

    method AddTextDataSections(writers: seq<Writer>) returns (syms: seq<Symbol>)
      modifies this`sections
      ensures sections == old(sections) + SectionsOf(writers)
      ensures syms == Collected(writers)
    {
      syms := [];
      for i := 0 to |writers|
        invariant sections == old(sections) + SectionsOf(writers[..i])
        invariant syms == Collected(writers[..i])
      {
        var buffer := writers[i];
        assert writers[..i + 1][..i] == writers[..i];
        if buffer.data != [] {
          sections := sections + [Section(buffer.name, buffer.isText, buffer.data)];
          if buffer.symbols != [] {
            syms := syms + buffer.symbols;
          }
        }
      }
      assert writers[..|writers|] == writers;
    }

    /** One entry for each distinct joined key, and each symbol's index. */
    method AddDynsymSection(syms: seq<Symbol>) returns (indexed: seq<Symbol>)
      requires OwnersPlaced(sections, syms)
      modifies this`dynsym
      ensures TableFor(sections, Interned(syms), dynsym)
      ensures Indexed(Interned(syms), syms, indexed) && Shared(syms, indexed)
    {
      hide TableFor, HashMatches, Decimal, SectionIndex, Indexed, Shared, FromHash, Interned, Owner, SectionExists,
           OwnersPlaced;
      StartTable(sections, syms);
      dynsym := [UNDEFINED];
      indexed := [];
      var hash: map<string, nat> := map[];
      for i := 0 to |syms|
        invariant TableFor(sections, Interned(syms[..i]), dynsym)
        invariant HashMatches(Interned(syms[..i]), syms[..i], hash)
        invariant |indexed| == i && FromHash(syms[..i], indexed, hash)
      {
        var sym := syms[i];
        ghost var hash0 := hash;
        var key := sym.section + "_" + sym.name + "_" + Decimal(sym.size);
        HashFinds(syms, i, hash);
        HashGrows(syms, i, hash);
        TableGrows(sections, syms, i, dynsym);
        if key !in hash {
          dynsym := dynsym + [Entry(sym.name, sym.size, SectionIndex(sections, sym.section))];
          hash := hash[key := |dynsym| - 1];
        }
        FromHashGrows(syms, i, indexed, hash0, hash);
        indexed := indexed + [sym.(index := hash[key])];
      }
      assert syms[..|syms|] == syms;
      FromHashIndexed(syms, indexed, hash);
    }

    method AddReldynSection(syms: seq<Symbol>)
      modifies this`rela
      ensures |rela| == |syms|
      ensures forall i :: 0 <= i < |syms| ==>
                rela[i] == Rela(syms[i].pos, syms[i].index, syms[i].schema, syms[i].addend)
    {
      rela := [];
      for i := 0 to |syms|
        invariant |rela| == i
        invariant forall j :: 0 <= j < i ==> rela[j] == Rela(syms[j].pos, syms[j].index, syms[j].schema, syms[j].addend)
      {
        rela := rela + [Rela(syms[i].pos, syms[i].index, syms[i].schema, syms[i].addend)];
      }
    }

    /** Sections first; tables only when some symbol survived. */
    method Process(writers: seq<Writer>) returns (kept: seq<Symbol>)
      requires OwnersPlaced(SectionsOf(writers), Collected(writers))
      requires sections == [] && dynsym == [] && rela == []
      modifies this
      ensures sections == SectionsOf(writers) && kept == Collected(writers)
      ensures kept == [] ==> dynsym == [] && rela == []
      ensures kept != [] ==> TableFor(sections, Interned(kept), dynsym)
      ensures |rela| == |kept| && forall i :: 0 <= i < |kept| ==> Relocates(sections, dynsym, kept, rela[i], i)
      ensures forall i, j :: 0 <= i < j < |kept| && KeyOf(kept[i]) == KeyOf(kept[j]) ==>
                rela[i].symbol == rela[j].symbol
    {
      hide TableFor, Interned, Owner, SectionIndex, SectionsOf, Collected, Key;
      kept := AddTextDataSections(writers);
      assert sections == SectionsOf(writers);
      if kept != [] {
        var indexed := AddDynsymSection(kept);
        AddReldynSection(indexed);
        forall i | 0 <= i < |kept| ensures Relocates(sections, dynsym, kept, rela[i], i) {
          EntryOfIndex(sections, Interned(kept), dynsym, indexed[i].index);
        }
      }
    }
  }

  /** Relocation i carries symbol i's place, kind and addend, and leads to the entry of its owner. */
  ghost predicate Relocates(sections: seq<Section>, dynsym: seq<Entry>, syms: seq<Symbol>, r: Rela, i: nat)
    requires i < |syms|
  {
    var own := syms[Owner(syms, i)];
    && r == Rela(syms[i].pos, r.symbol, syms[i].schema, syms[i].addend)
    && SectionExists(sections, own.section) && 1 <= r.symbol < |dynsym|
    && dynsym[r.symbol] == Entry(own.name, own.size, SectionIndex(sections, own.section))
  }

  lemma EntryOfIndex(sections: seq<Section>, ts: seq<Triple>, dynsym: seq<Entry>, index: nat)
    requires TableFor(sections, ts, dynsym) && 1 <= index <= |ts|
    ensures SectionExists(sections, ts[index - 1].section) && index < |dynsym|
    ensures dynsym[index] ==
            Entry(ts[index - 1].name, ts[index - 1].size, SectionIndex(sections, ts[index - 1].section))
  {
    hide SectionIndex, SectionExists;
  }

  /** The encoder: one writer a section in the order of the keys, all symbols on the first. */
  method Encode(keys: seq<string>, data: map<string, seq<byte>>, syms: seq<Symbol>) returns (writers: seq<Writer>)
    requires keys != [] && forall i :: 0 <= i < |keys| ==> keys[i] in data
    ensures EncodedAs(keys, data, syms, writers)
  {
    writers := [];
    for i := 0 to |keys|
      invariant |writers| == i
      invariant forall j :: 0 <= j < i ==> writers[j] == WriterFor(data, keys[j], [])
    {
      if keys[i] == CTRL_TEXT {
        writers := writers + [Writer(keys[i], true, data[keys[i]], [])];
      } else {
        writers := writers + [Writer(keys[i], false, data[keys[i]], [])];
      }
    }
    writers := writers[0 := writers[0].(symbols := syms)];
  }
}
