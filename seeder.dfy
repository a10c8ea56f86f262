/**
  The start-up seeding of app.js (`loadCharacters`): every parsed character file is inserted
  into the store unless a stored name already matches its name, case-insensitively, as a
  substring. The store is a sequence of records in insertion order.
 */
module Seeder {
  import opened Wrappers
  import opened Resolver

  /** A character definition as read from a file, reduced to the fields the service uses. */
  datatype CharacterData = CharacterData(name: string, hitPoints: int, tempHP: int, defenses: seq<Defense>)

  /** ASCII case folding of one character: upper-case letters become lower-case, nothing else changes. */
  function LowerChar(c: char): (r: char)
    ensures !('A' <= r <= 'Z')
    ensures r == c || ('A' <= c <= 'Z' && r as int - c as int == 'a' as int - 'A' as int)
  {
    if 'A' <= c <= 'Z' then (c as int - 'A' as int + 'a' as int) as char else c
  }

  /** ASCII case folding of a name, character by character. */
  function Lower(s: string): (r: string)
    ensures |r| == |s|
    ensures forall i :: 0 <= i < |r| ==> !('A' <= r[i] <= 'Z') && r[i] == LowerChar(s[i])
  {
    seq(|s|, i requires 0 <= i < |s| => LowerChar(s[i]))
  }

  /** `query` occurs in `s` starting at index `i`. */
  predicate OccursAt(s: string, query: string, i: int)
  {
    0 <= i <= |s| - |query| && s[i..i + |query|] == query
  }

  /** Folding a folded name changes nothing. */
  lemma LowerIdempotent(s: string)
    ensures Lower(Lower(s)) == Lower(s)
  {
  }

  /** Substring containment, scanning `s` from the left (specified by ContainsIff). */
  function Contains(s: string, query: string): bool
  {
    if query <= s then true
    else if s == [] then false
    else Contains(s[1..], query)
  }

  /** The scan finds `query` exactly when it occurs somewhere in `s`. */
  lemma {:induction false} ContainsIff(s: string, query: string)
    ensures Contains(s, query) <==> exists i :: OccursAt(s, query, i)
  {
    if query <= s {
      assert OccursAt(s, query, 0);
    } else if s != [] {
      ContainsIff(s[1..], query);
      if Contains(s[1..], query) {
        var i :| OccursAt(s[1..], query, i);
        assert s[i + 1..i + 1 + |query|] == s[1..][i..i + |query|];
        assert OccursAt(s, query, i + 1);
      } else {
        forall i | 0 <= i <= |s| - |query|
          ensures !OccursAt(s, query, i)
        {
          if i > 0 {
            assert s[1..][i - 1..i - 1 + |query|] == s[i..i + |query|];
            assert !OccursAt(s[1..], query, i - 1);
          }
        }
      }
    }
  }

  /**
    Stand-in for the `{ $regex: query, $options: 'i' }` test on a stored name: case-insensitive
    substring containment. It agrees with the regular expression only for a query without
    regex metacharacters and with ASCII letters only.
   */
  predicate NameMatches(stored: string, query: string)
  {
    Contains(Lower(stored), Lower(query))
  }

  /** A stored name matches exactly when the folded query occurs at some position of the folded name. */
  lemma NameMatchesIff(stored: string, query: string)
    ensures NameMatches(stored, query) <==> exists i :: OccursAt(Lower(stored), Lower(query), i)
  {
    ContainsIff(Lower(stored), Lower(query));
  }

  /** The match ignores case on both sides: folding the stored name or the query changes nothing. */
  lemma NameMatchesIgnoresCase(stored: string, query: string)
    ensures NameMatches(stored, query) <==> NameMatches(Lower(stored), query)
    ensures NameMatches(stored, query) <==> NameMatches(stored, Lower(query))
  {
    LowerIdempotent(stored);
    LowerIdempotent(query);
  }

  /**
    Under the containment stand-in a name matches itself. The source's regular expression need
    not: a name such as `a+b` does not match itself as a pattern.
   */
  lemma NameMatchesItself(name: string)
    ensures NameMatches(name, name)
  {
  }

  /**
    The name query of `findOne`. The model picks the first match in insertion order; the store
    itself only promises some match in its natural order.
   */
  function FindByName(records: seq<CharacterData>, query: string): (r: Option<nat>)
    ensures r.Some? ==> r.value < |records| && NameMatches(records[r.value].name, query)
    ensures r.Some? ==> forall j :: 0 <= j < r.value ==> !NameMatches(records[j].name, query)
    ensures r.None? ==> forall j :: 0 <= j < |records| ==> !NameMatches(records[j].name, query)
  {
    if records == [] then None
    else if NameMatches(records[0].name, query) then Some(0)
    else match FindByName(records[1..], query)
      case None => None
      case Some(i) => Some(i + 1)
  }

  /** One iteration of the seeding loop: insert the file's record only if no stored name matches it. */
  function LoadOne(records: seq<CharacterData>, file: CharacterData): (r: seq<CharacterData>)
    ensures FindByName(records, file.name).None? ==> r == records + [file]
    ensures FindByName(records, file.name).Some? ==> r == records
    ensures FindByName(r, file.name).Some?
  {
    if FindByName(records, file.name).None? then
      NameMatchesItself(file.name);
      assert (records + [file])[|records|] == file;
      records + [file]
    else records
  }

  /** The whole seeding pass over the files, in order: the stored records stay a prefix. */
  function Seed(records: seq<CharacterData>, files: seq<CharacterData>): (r: seq<CharacterData>)
    ensures records <= r && |r| <= |records| + |files|
    decreases |files|
  {
    if files == [] then records else Seed(LoadOne(records, files[0]), files[1..])
  }

  /** Extending the store never loses a match that already existed. */
  lemma FindByNameExtend(records: seq<CharacterData>, longer: seq<CharacterData>, query: string)
    requires records <= longer
    requires FindByName(records, query).Some?
    ensures FindByName(longer, query).Some?
  {
    var i := FindByName(records, query).value;
    assert longer[i] == records[i];
  }

  /** Seeding never modifies or removes a stored record, and inserts only records taken from the files. */
  lemma {:induction false} SeedKeepsExisting(records: seq<CharacterData>, files: seq<CharacterData>)
    ensures records <= Seed(records, files)
    ensures forall k :: |records| <= k < |Seed(records, files)| ==> Seed(records, files)[k] in files
    decreases |files|
  {
    if files != [] {
      var next := LoadOne(records, files[0]);
      SeedKeepsExisting(next, files[1..]);
      var s := Seed(records, files);
      forall k | |records| <= k < |s|
        ensures s[k] in files
      {
        if k < |next| {
          assert s[k] == next[k] == files[0];
        } else {
          assert s[k] in files[1..];
        }
      }
    }
  }

  /**
    After a pass, the name of every file matches some stored record.
    This holds under the containment stand-in for the name query. In the source a name with
    regex metacharacters may not match itself (`a+b`), so its file is inserted again on every
    start, and a malformed pattern (`Jo(e`) makes the query fail and stops the loop.
   */
  lemma {:induction false} SeedMatchesEveryFile(records: seq<CharacterData>, files: seq<CharacterData>)
    ensures forall k :: 0 <= k < |files| ==> FindByName(Seed(records, files), files[k].name).Some?
    decreases |files|
  {
    if files != [] {
      var next := LoadOne(records, files[0]);
      var rest := files[1..];
      var s := Seed(next, rest);
      assert Seed(records, files) == s;
      SeedMatchesEveryFile(next, rest);
      FindByNameExtend(next, s, files[0].name);
      forall k | 1 <= k < |files|
        ensures FindByName(s, files[k].name).Some?
      {
        assert files[k] == rest[k - 1];
      }
    }
  }

  /** A pass inserts nothing when every file's name already matches a stored record. */
  lemma {:induction false} SeedNothingNew(records: seq<CharacterData>, files: seq<CharacterData>)
    requires forall k :: 0 <= k < |files| ==> FindByName(records, files[k].name).Some?
    ensures Seed(records, files) == records
    decreases |files|
  {
    if files != [] {
      assert FindByName(records, files[0].name).Some?;
      forall k | 0 <= k < |files[1..]|
        ensures FindByName(records, files[1..][k].name).Some?
      {
        assert files[1..][k] == files[k + 1];
      }
      SeedNothingNew(records, files[1..]);
    }
  }

  /**
    Seeding the same files a second time inserts nothing.
    This holds under the containment stand-in for the name query. In the source a name with
    regex metacharacters may not match itself (`a+b`), so its file is inserted again on every
    start, and a malformed pattern (`Jo(e`) makes the query fail and stops the loop.
   */
  lemma SeedIdempotent(records: seq<CharacterData>, files: seq<CharacterData>)
    ensures Seed(Seed(records, files), files) == Seed(records, files)
  {
    SeedMatchesEveryFile(records, files);
    SeedNothingNew(Seed(records, files), files);
  }

  /** No two stored records carry the same name. */
  predicate DistinctNames(records: seq<CharacterData>)
  {
    forall i, j :: 0 <= i < j < |records| ==> records[i].name != records[j].name
  }

  /**
    Seeding never creates two stored records with the same name.
    This holds under the containment stand-in for the name query. In the source a name with
    regex metacharacters may not match itself (`a+b`), so its file is inserted again on every
    start, and a malformed pattern (`Jo(e`) makes the query fail and stops the loop.
   */
  lemma {:induction false} SeedKeepsNamesDistinct(records: seq<CharacterData>, files: seq<CharacterData>)
    requires DistinctNames(records)
    ensures DistinctNames(Seed(records, files))
    decreases |files|
  {
    if files != [] {
      var file := files[0];
      var next := LoadOne(records, file);
      if FindByName(records, file.name).None? {
        forall i | 0 <= i < |records|
          ensures records[i].name != file.name
        {
          NameMatchesItself(file.name);
        }
      }
      SeedKeepsNamesDistinct(next, files[1..]);
    }
  }

  /** The character collection, seen as the sequence of its documents in insertion order. */
  class Store {
    var records: seq<CharacterData>

    constructor (records: seq<CharacterData>)
      ensures this.records == records
    {
      this.records := records;
    }

    /** `new Character(data).save()`: the document is appended to the collection. */
    method Save(record: CharacterData)
      modifies this
      ensures records == old(records) + [record]
    {
      records := records + [record];
    }
  }

  /** `loadCharacters`: the loop over the parsed character files. */
  method LoadCharacters(store: Store, files: seq<CharacterData>)
    modifies store
    ensures store.records == Seed(old(store.records), files)
    ensures old(store.records) <= store.records
    ensures forall k :: 0 <= k < |files| ==> FindByName(store.records, files[k].name).Some?
  {
    for i := 0 to |files|
      invariant Seed(store.records, files[i..]) == Seed(old(store.records), files)
    {
      assert files[i..][0] == files[i] && files[i..][1..] == files[i + 1..];
      var existing := FindByName(store.records, files[i].name);
      if existing.None? {
        store.Save(files[i]);
      }
    }
    SeedKeepsExisting(old(store.records), files);
    SeedMatchesEveryFile(old(store.records), files);
  }
}
