/**
 * The Supabase events table as both event handlers look for it.
 *
 * The names tried, in order: the
 * configured name, the same name with every `-` turned into `_`, then
 * `events` and `oulipo_events`, each name kept only at its first
 * occurrence. app/api/upcoming/events/route.ts de-duplicates with a `Set`
 * inside `filter` (`uniqueStrings`), app/api/supabase/status/route.ts with
 * `a.indexOf(v) === i`; the two agree.
 */
module EventsTable {
  import opened Wrappers
  import Strings

  /** A Supabase error: its message and its Postgres/PostgREST code, when it has one. */
  datatype DbError = DbError(message: string, code: Option<string>)

  /**
   * The two codes after which the handlers move on to the next name:
   * `42P01` (undefined table) and `PGRST204` (PostgREST schema-cache miss).
   */
  predicate TableMissing(code: Option<string>) {
    code == Some("42P01") || code == Some("PGRST204")
  }

  const DefaultTable := "oulipo-events"

  /** `process.env.SUPABASE_EVENTS_TABLE || 'oulipo-events'`: an unset or empty variable gives the default. */
  function ConfiguredTable(env: Option<string>): (t: string)
    ensures t != []
    ensures t == if env.Some? && env.value != "" then env.value else DefaultTable
  {
    match env
    case Some(name) => if name != "" then name else DefaultTable
    case None => DefaultTable
  }

  /** The four candidate names before de-duplication. */
  function Candidates(configured: string): seq<string> {
    [configured, Strings.ReplaceAll(configured, '-', '_'), "events", "oulipo_events"]
  }

  /** `a.indexOf(x)`: the first index holding `x`, or -1. */
  function IndexOf(a: seq<string>, x: string): (r: int)
    ensures -1 <= r < |a|
    ensures r == -1 <==> x !in a
    ensures r >= 0 ==> a[r] == x && forall j :: 0 <= j < r ==> a[j] != x
    decreases |a|
  {
    if a == [] then -1
    else if a[0] == x then 0
    else
      var r := IndexOf(a[1..], x);
      if r == -1 then -1 else r + 1
  }

  /** `a.filter((v, i, a) => a.indexOf(v) === i)` applied to the first `n` elements. */
  function FirstOccurrences(a: seq<string>, n: nat): seq<string>
    requires n <= |a|
  {
    if n == 0 then []
    else FirstOccurrences(a, n - 1) + (if IndexOf(a, a[n - 1]) == n - 1 then [a[n - 1]] else [])
  }

  /** The de-duplicated list. */
  function Unique(a: seq<string>): seq<string> {
    FirstOccurrences(a, |a|)
  }

  /** The table names tried, in order. */
  function Variants(configured: string): seq<string> {
    Unique(Candidates(configured))
  }

  /**
   * `uniqueStrings`: walk the list with a set of names already seen, keeping
   * a name only when it has not been seen.
   */
  method UniqueStrings(arr: seq<string>) returns (result: seq<string>)
    ensures result == Unique(arr)
  {
    var seen: set<string> := {};
    result := [];
    var i := 0;
    while i < |arr|
      invariant 0 <= i <= |arr|
      invariant result == FirstOccurrences(arr, i)
      invariant forall x :: x in seen <==> x in arr[..i]
    {
      var s := arr[i];
      FirstOccurrencesStep(arr, i, seen);
      if s !in seen {
        seen := seen + {s};
        result := result + [s];
      }
      i := i + 1;
    }
    assert arr[..|arr|] == arr;
  }

  /**
   * One more name is kept exactly when it is not among the names seen
   * before it, and afterwards it is among them.
   */
  lemma FirstOccurrencesStep(arr: seq<string>, i: nat, seen: set<string>)
    requires i < |arr|
    requires forall x :: x in seen <==> x in arr[..i]
    ensures FirstOccurrences(arr, i + 1) ==
      FirstOccurrences(arr, i) + (if arr[i] in seen then [] else [arr[i]])
    ensures forall x :: x in seen + {arr[i]} <==> x in arr[..i + 1]
  {
    var first := IndexOf(arr, arr[i]);
    if first < i { assert arr[..i][first] == arr[i]; }
    if arr[i] in arr[..i] {
      var j :| 0 <= j < i && arr[..i][j] == arr[i];
      assert arr[j] == arr[i];
    }
    assert arr[..i + 1] == arr[..i] + [arr[i]];
  }

  /**
   * The first `n` elements' de-duplication holds exactly the names among
   * them, and lists them in the order of their first occurrence.
   */
  lemma {:induction false} FirstOccurrencesFacts(a: seq<string>, n: nat)
    requires n <= |a|
    ensures var u := FirstOccurrences(a, n);
      (forall x :: x in u <==> x in a[..n])
      && (forall i :: 0 <= i < |u| ==> 0 <= IndexOf(a, u[i]) < n)
      && (forall i, j :: 0 <= i < j < |u| ==> IndexOf(a, u[i]) < IndexOf(a, u[j]))
  {
    if n > 0 {
      FirstOccurrencesFacts(a, n - 1);
      var prev := FirstOccurrences(a, n - 1);
      var x := a[n - 1];
      var first := IndexOf(a, x);
      assert a[..n] == a[..n - 1] + [x];
      if first == n - 1 {
        assert FirstOccurrences(a, n) == prev + [x];
        assert x !in a[..n - 1];
      } else {
        assert first < n - 1;
        assert FirstOccurrences(a, n) == prev;
        assert a[..n - 1][first] == x;
        assert x in a[..n - 1];
        forall y ensures y in prev <==> y in a[..n] {
          assert y in a[..n] <==> y in a[..n - 1] || y == x;
        }
        forall i | 0 <= i < |prev| ensures 0 <= IndexOf(a, prev[i]) < n {
          assert IndexOf(a, prev[i]) < n - 1;
        }
      }
    }
  }

  /** The de-duplicated list holds exactly the input's names. */
  lemma UniqueSameNames(a: seq<string>)
    ensures forall x :: x in Unique(a) <==> x in a
  {
    FirstOccurrencesFacts(a, |a|);
    assert a[..|a|] == a;
  }

  /** No name appears twice in the de-duplicated list. */
  lemma UniqueNoDuplicates(a: seq<string>)
    ensures forall i, j :: 0 <= i < j < |Unique(a)| ==> Unique(a)[i] != Unique(a)[j]
  {
    FirstOccurrencesFacts(a, |a|);
    var u := Unique(a);
    assert u == FirstOccurrences(a, |a|);
    forall i, j | 0 <= i < j < |u| ensures u[i] != u[j] {
      assert IndexOf(a, u[i]) < IndexOf(a, u[j]);
    }
  }

  /** Names keep the order of their first occurrences in the input. */
  lemma UniqueKeepsFirstOrder(a: seq<string>)
    ensures forall i, j :: 0 <= i < j < |Unique(a)| ==> IndexOf(a, Unique(a)[i]) < IndexOf(a, Unique(a)[j])
  {
    FirstOccurrencesFacts(a, |a|);
    assert Unique(a) == FirstOccurrences(a, |a|);
  }

  /** In a list without duplicates every name is first found where it stands. */
  lemma IndexOfDistinct(a: seq<string>, i: nat)
    requires i < |a|
    requires forall p, q :: 0 <= p < q < |a| ==> a[p] != a[q]
    ensures IndexOf(a, a[i]) == i
  {
    assert a[i] in a;
  }

  /** A list without duplicates is left as it is. */
  lemma {:induction false} UniqueOfDistinct(a: seq<string>, n: nat)
    requires n <= |a|
    requires forall i, j :: 0 <= i < j < |a| ==> a[i] != a[j]
    ensures FirstOccurrences(a, n) == a[..n]
  {
    if n > 0 {
      UniqueOfDistinct(a, n - 1);
      assert a[..n] == a[..n - 1] + [a[n - 1]];
    }
  }

  /** A shorter prefix's de-duplication is a prefix of a longer one's. */
  lemma {:induction false} FirstOccurrencesGrow(a: seq<string>, m: nat, n: nat)
    requires m <= n <= |a|
    ensures FirstOccurrences(a, m) <= FirstOccurrences(a, n)
    decreases n - m
  {
    if m < n {
      FirstOccurrencesGrow(a, m, n - 1);
    }
  }

  /** The configured name is tried first, and `events` and `oulipo_events` are always among the names tried. */
  lemma ConfiguredTriedFirst(configured: string)
    ensures var u := Variants(configured);
      |u| >= 2 && u[0] == configured && "events" in u && "oulipo_events" in u
  {
    var c := Candidates(configured);
    var u := Variants(configured);
    UniqueHead(c);
    UniqueSameNames(c);
    assert c[2] == "events" && c[3] == "oulipo_events";
    assert "events" in u && "oulipo_events" in u;
    var i :| 0 <= i < |u| && u[i] == "events";
    var j :| 0 <= j < |u| && u[j] == "oulipo_events";
    assert i != j;
  }

  /** The first name of a non-empty list is always kept, in first place. */
  lemma UniqueHead(a: seq<string>)
    requires a != []
    ensures Unique(a) != [] && Unique(a)[0] == a[0]
  {
    assert FirstOccurrences(a, 1) == [a[0]];
    FirstOccurrencesGrow(a, 1, |a|);
  }

  /** With the default name the variants are `oulipo-events`, `oulipo_events`, `events`. */
  lemma DefaultVariants()
    ensures Variants(ConfiguredTable(None)) == ["oulipo-events", "oulipo_events", "events"]
  {
    var c := Candidates(DefaultTable);
    assert Strings.ReplaceAll(DefaultTable, '-', '_') == "oulipo_events";
    assert c == ["oulipo-events", "oulipo_events", "events", "oulipo_events"];
    assert IndexOf(c, "oulipo-events") == 0;
    assert IndexOf(c, "oulipo_events") == 1;
    assert IndexOf(c, "events") == 2;
    assert FirstOccurrences(c, 1) == ["oulipo-events"];
    assert FirstOccurrences(c, 2) == ["oulipo-events", "oulipo_events"];
    assert FirstOccurrences(c, 3) == ["oulipo-events", "oulipo_events", "events"];
    assert FirstOccurrences(c, 4) == FirstOccurrences(c, 3);
  }
}
