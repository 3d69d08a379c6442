/** The built-in-services section of the Hardy configuration: unique keys, unique service
    numbers (radiant-dtn-abstraction/src/adapter/hardy/config_gen.rs). */
module HardyServices {
  import opened Prelude
  import opened Decimal

  datatype Service = Service(number: nat, description: Option<string>)

  /** One emitted line: `key: [number, "description"]`. */
  datatype Entry = Entry(key: string, number: nat, description: string)

  const ECHO := Entry("echo", 7, "echo")

  function Described(s: Service): string {
    if s.description.None? then "service" else s.description.value
  }

  function DashSpaces(s: string): string {
    if s == [] then [] else [if s[0] == ' ' then '-' else s[0]] + DashSpaces(s[1..])
  }

  /** Spaces become dashes, and nothing else changes. */
  lemma {:induction false} DashesForSpaces(s: string)
    ensures |DashSpaces(s)| == |s|
    ensures forall i :: 0 <= i < |s| ==> DashSpaces(s)[i] == if s[i] == ' ' then '-' else s[i]
  {
    if s != [] {
      DashesForSpaces(s[1..]);
    }
  }

  // ------------------------------------------------------------------ the fresh key

  function Numbered(key: string, n: nat): string {
    key + "-" + Natural(n)
  }

  /** The keys the loop tries: the original, then the original numbered 2, 3, ... */
  function Candidate(original: string, c: nat): string
    requires c >= 1
  {
    if c == 1 then original else Numbered(original, c)
  }

  lemma CandidatesDiffer(original: string, c: nat, d: nat)
    requires 1 <= c < d
    ensures Candidate(original, c) != Candidate(original, d)
  {
    if c > 1 && Candidate(original, c) == Candidate(original, d) {
      assert Natural(c) == Candidate(original, c)[|original| + 1..];
      assert Natural(d) == Candidate(original, d)[|original| + 1..];
      NaturalInjective(c, d);
    }
  }

  lemma SubsetCardinality<T>(a: set<T>, b: set<T>)
    requires a <= b
    ensures |a| <= |b|
  {
    assert b == a + (b - a);
  }

  /** The key chosen for a service: its base name if free, else the base name with the service
      number, else that with the least counter from 2 on that makes it free. */
  ghost predicate IsFreshKey(key: string, used: set<string>, base: string, number: nat) {
    var withNumber := base + "-" + Natural(number);
    key !in used &&
    if base !in used then key == base
    else if withNumber !in used then key == withNumber
    else exists c :: c >= 2 && key == Candidate(withNumber, c) &&
           forall d :: 1 <= d < c ==> Candidate(withNumber, d) in used
  }

  /** The collision loop ends: each failed try is another member of the finite set in use. */
  method FreshKey(used: set<string>, base: string, number: nat) returns (key: string)
    ensures IsFreshKey(key, used, base, number)
  {
    hide Natural;
    key := base;
    if base in used {
      key := Numbered(base, number);
    }
    var original := key;
    var counter := 2;
    ghost var tried: set<string> := {};
    while key in used
      invariant counter >= 2 && key == Candidate(original, counter - 1)
      invariant forall d :: 1 <= d < counter - 1 ==> Candidate(original, d) in used
      invariant tried <= used && |tried| == counter - 2
      invariant forall t :: t in tried ==> exists d :: 1 <= d < counter - 1 && t == Candidate(original, d)
      decreases |used| - |tried|
    {
      forall t | t in tried ensures t != key {
        var d :| 1 <= d < counter - 1 && t == Candidate(original, d);
        CandidatesDiffer(original, d, counter - 1);
      }
      SubsetCardinality(tried + {key}, used);
      tried := tried + {key};
      assert key == Candidate(original, counter - 1);
      key := original + "-" + Natural(counter);
      counter := counter + 1;
    }
    if counter > 2 {
      assert Candidate(original, 1) in used;
    }
  }

  // -------------------------------------------------------------- duplicates removed

  function Numbers(services: seq<Service>): set<nat> {
    set i | 0 <= i < |services| :: services[i].number
  }

  /** The services that are kept: first occurrences of numbers other than echo's. */
  function Kept(services: seq<Service>): seq<Service> {
    if services == [] then []
    else
      var n := |services| - 1;
      var s := services[n];
      Kept(services[..n]) + if s.number == ECHO.number || s.number in Numbers(services[..n]) then [] else [s]
  }

  /** Service i is the first with its number. */
  ghost predicate IsFirst(services: seq<Service>, i: nat) {
    i < |services| && services[i].number != 7 &&
    forall j :: 0 <= j < i ==> services[j].number != services[i].number
  }

  lemma NumbersSnoc(services: seq<Service>)
    requires services != []
    ensures var n := |services| - 1;
            Numbers(services) == Numbers(services[..n]) + {services[n].number}
  {
    var n := |services| - 1;
    forall x | x in Numbers(services) ensures x in Numbers(services[..n]) + {services[n].number} {
      var i :| 0 <= i < |services| && services[i].number == x;
      assert i < n ==> services[..n][i].number == x;
    }
    forall x | x in Numbers(services[..n]) ensures x in Numbers(services) {
      var i :| 0 <= i < n && services[..n][i].number == x;
      assert services[i].number == x;
    }
  }

  /** Exactly the distinct service numbers other than 7 are kept. */
  lemma {:induction false} KeptNumbers(services: seq<Service>)
    ensures Numbers(Kept(services)) == Numbers(services) - {7}
    ensures forall i, j :: 0 <= i < j < |Kept(services)| ==> Kept(services)[i].number != Kept(services)[j].number
  {
    if services != [] {
      var n := |services| - 1;
      var earlier, s := Kept(services[..n]), services[n];
      KeptNumbers(services[..n]);
      NumbersSnoc(services);
      if s.number != ECHO.number && s.number !in Numbers(services[..n]) {
        assert Kept(services)[..|earlier|] == earlier;
        NumbersSnoc(Kept(services));
        forall i | 0 <= i < |earlier| ensures earlier[i].number != s.number {
          assert earlier[i].number in Numbers(earlier);
        }
      } else {
        assert Kept(services) == earlier;
      }
    }
  }

  /** Of several services with one number the first wins. */
  lemma {:induction false} FirstOccurrenceWins(services: seq<Service>, i: nat)
    requires IsFirst(services, i)
    ensures services[i] in Kept(services)
  {
    var n := |services| - 1;
    if i < n {
      assert IsFirst(services[..n], i);
      FirstOccurrenceWins(services[..n], i);
    } else {
      assert services[i].number !in Numbers(services[..n]);
    }
  }

  /** The first occurrences are kept in their order. */
  lemma {:induction false} KeptInOrder(services: seq<Service>, i: nat, j: nat)
    requires i < j && IsFirst(services, i) && IsFirst(services, j)
    ensures exists p, q :: 0 <= p < q < |Kept(services)| && Kept(services)[p] == services[i]
                           && Kept(services)[q] == services[j]
  {
    var n := |services| - 1;
    var earlier := Kept(services[..n]);
    if j < n {
      assert IsFirst(services[..n], i) && IsFirst(services[..n], j);
      KeptInOrder(services[..n], i, j);
      var p, q :| 0 <= p < q < |earlier| && earlier[p] == services[i] && earlier[q] == services[j];
      assert Kept(services)[p] == services[i] && Kept(services)[q] == services[j];
    } else {
      assert IsFirst(services[..n], i);
      FirstOccurrenceWins(services[..n], i);
      var p :| 0 <= p < |earlier| && earlier[p] == services[i];
      assert services[j].number !in Numbers(services[..n]);
      assert Kept(services)[p] == services[i] && Kept(services)[|earlier|] == services[j];
    }
  }

  // --------------------------------------------------------------------- the writer

  ghost predicate DistinctKeys(entries: seq<Entry>) {
    forall i, j :: 0 <= i < j < |entries| ==> entries[i].key != entries[j].key
  }

  ghost predicate DistinctNumbers(entries: seq<Entry>) {
    forall i, j :: 0 <= i < j < |entries| ==> entries[i].number != entries[j].number
  }

  ghost predicate HasNumber(entries: seq<Entry>, n: nat) {
    exists i :: 0 <= i < |entries| && entries[i].number == n
  }

  /** The entries list the kept services in order, after echo. */
  ghost predicate Lists(entries: seq<Entry>, kept: seq<Service>) {
    && |entries| == |kept| + 1 && entries[0] == Entry("echo", 7, "echo")
    && forall i :: 0 <= i < |kept| ==>
         && entries[i + 1].number == kept[i].number
         && entries[i + 1].description == if kept[i].description.Some? then kept[i].description.value else "service"
  }

  function KeySet(entries: seq<Entry>): set<string> {
    set i | 0 <= i < |entries| :: entries[i].key
  }

  /** Each service's key is the first free one for its description, given the entries before it. */
  ghost predicate FreshKeys(lower: string -> string, entries: seq<Entry>) {
    forall i :: 1 <= i < |entries| ==>
      IsFreshKey(entries[i].key, KeySet(entries[..i]), DashSpaces(lower(entries[i].description)), entries[i].number)
  }

  lemma KeySetSnoc(entries: seq<Entry>, e: Entry)
    ensures KeySet(entries + [e]) == KeySet(entries) + {e.key}
  {
    var all := entries + [e];
    forall k | k in KeySet(entries) ensures k in KeySet(all) {
      var i :| 0 <= i < |entries| && entries[i].key == k;
      assert all[i].key == k;
    }
    assert all[|entries|] == e;
  }

  lemma FreshSnoc(lower: string -> string, entries: seq<Entry>, e: Entry)
    requires FreshKeys(lower, entries) && DistinctKeys(entries)
    requires IsFreshKey(e.key, KeySet(entries), DashSpaces(lower(e.description)), e.number)
    ensures FreshKeys(lower, entries + [e]) && DistinctKeys(entries + [e])
  {
    hide IsFreshKey;
    var all := entries + [e];
    forall i | 1 <= i < |all|
      ensures IsFreshKey(all[i].key, KeySet(all[..i]), DashSpaces(lower(all[i].description)), all[i].number)
    {
      if i < |entries| {
        assert all[..i] == entries[..i];
      } else {
        assert all[..i] == entries;
      }
    }
    FreshIsUnused(e.key, KeySet(entries), DashSpaces(lower(e.description)), e.number);
    assert forall i :: 0 <= i < |entries| ==> entries[i].key in KeySet(entries);
  }

  lemma OnlyEcho(lower: string -> string)
    ensures KeySet([ECHO]) == {ECHO.key} && DistinctKeys([ECHO]) && FreshKeys(lower, [ECHO])
  {
    assert [ECHO][0].key == ECHO.key;
  }

  lemma FreshIsUnused(key: string, used: set<string>, base: string, number: nat)
    requires IsFreshKey(key, used, base, number)
    ensures key !in used
  {
  }

  /** The section: keys are pairwise distinct, and so are service numbers; after echo come
      exactly the first occurrences of the configured numbers, in order. Lower-casing is any function. */
  method WriteBuiltInServices(lower: string -> string, services: seq<Service>) returns (entries: seq<Entry>)
    ensures Lists(entries, Kept(services))
    ensures DistinctKeys(entries) && DistinctNumbers(entries) && FreshKeys(lower, entries)
    ensures forall n :: HasNumber(entries, n) <==> n == 7 || n in Numbers(services)
  {
    hide FreshKeys, DistinctKeys, KeySet, IsFreshKey;
    entries := [ECHO];
    OnlyEcho(lower);
    var usedKeys := {ECHO.key};
    var usedNumbers := {ECHO.number};
    for i := 0 to |services|
      invariant usedNumbers == Numbers(services[..i]) + {ECHO.number}
      invariant Lists(entries, Kept(services[..i])) && DistinctKeys(entries) && FreshKeys(lower, entries)
      invariant usedKeys == KeySet(entries)
    {
      var svc := services[i];
      assert services[..i + 1][..i] == services[..i];
      NumbersSnoc(services[..i + 1]);
      if svc.number !in usedNumbers {
        usedNumbers := usedNumbers + {svc.number};
        var desc := Described(svc);
        var key := FreshKey(usedKeys, DashSpaces(lower(desc)), svc.number);
        usedKeys := usedKeys + {key};
        KeySetSnoc(entries, Entry(key, svc.number, desc));
        FreshSnoc(lower, entries, Entry(key, svc.number, desc));
        entries := entries + [Entry(key, svc.number, desc)];
      }
    }
    assert services[..|services|] == services;
    EntriesNumbers(entries, services);
  }

  lemma EntriesNumbers(entries: seq<Entry>, services: seq<Service>)
    requires Lists(entries, Kept(services))
    ensures DistinctNumbers(entries)
    ensures forall n :: HasNumber(entries, n) <==> n == ECHO.number || n in Numbers(services)
  {
    hide Kept, Numbers;
    var kept := Kept(services);
    KeptNumbers(services);
    NumbersAreMembers(kept);
    forall j | 1 <= j < |entries| ensures entries[j].number != ECHO.number {
      assert kept[j - 1].number in Numbers(kept);
    }
    forall i, j | 0 <= i < j < |entries| ensures entries[i].number != entries[j].number {
      if i > 0 {
        assert kept[i - 1].number != kept[j - 1].number;
      }
    }
    forall n | n == ECHO.number || n in Numbers(services) ensures HasNumber(entries, n) {
      if n == ECHO.number {
        assert entries[0].number == n;
      } else {
        assert n in Numbers(kept);
        var i :| 0 <= i < |kept| && kept[i].number == n;
        assert entries[i + 1].number == n;
      }
    }
    forall n | HasNumber(entries, n) ensures n == ECHO.number || n in Numbers(services) {
      var i :| 0 <= i < |entries| && entries[i].number == n;
      if i > 0 {
        assert kept[i - 1].number in Numbers(kept);
      }
    }
  }

  lemma NumbersAreMembers(services: seq<Service>)
    ensures forall i :: 0 <= i < |services| ==> services[i].number in Numbers(services)
    ensures forall n :: n in Numbers(services) ==> exists i :: 0 <= i < |services| && services[i].number == n
  {
  }
}
