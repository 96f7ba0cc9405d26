/**
  The lookup layer of env.go over the process environment. The environment is the
  ordered list of raw "KEY=VALUE" entries that `os.Environ()` returns, passed in as
  `env`; every accessor re-scans it.
*/
module Env {
  import opened Strconv

  /** Go's `strings.Index(s, string(c))`: the index of the first c in s, or -1. */
  function IndexOf(s: string, c: char): (i: int)
    ensures -1 <= i < |s|
    ensures i == -1 <==> forall j :: 0 <= j < |s| ==> s[j] != c
    ensures 0 <= i ==> s[i] == c && forall j :: 0 <= j < i ==> s[j] != c
  {
    if s == [] then -1
    else if s[0] == c then 0
    else
      var j := IndexOf(s[1..], c);
      if j < 0 then -1 else j + 1
  }

  /** What `parseEntry` returns: the key, the value and whether `err` is nil. */
  datatype Entry = Entry(key: string, value: string, ok: bool)

  /** `parseEntry`: split an entry at its first '='. */
  function ParseEntry(e: string): Entry {
    var sep := IndexOf(e, '=');
    if sep < 1 then Entry("", "", false) else Entry(e[..sep], e[sep + 1..], true)
  }

  /**
    An entry is malformed exactly when it has no '=' or starts with '='; a malformed entry
    gives empty key and value, and a well-formed one a non-empty key without '=' that,
    joined to the value by '=', gives the entry back.
  */
  lemma ParseEntrySpec(e: string)
    ensures !ParseEntry(e).ok <==> (forall i :: 0 <= i < |e| ==> e[i] != '=') || e[0] == '='
    ensures !ParseEntry(e).ok ==> ParseEntry(e).key == "" && ParseEntry(e).value == ""
    ensures ParseEntry(e).ok ==>
      var r := ParseEntry(e);
      |r.key| > 0 && (forall i :: 0 <= i < |r.key| ==> r.key[i] != '=') && r.key + "=" + r.value == e
  {
    var sep := IndexOf(e, '=');
    if sep >= 1 {
      assert e == e[..sep] + "=" + e[sep + 1..];
    }
  }

  /** A well-formed entry is split at its only possible place: its key cannot hold '='. */
  lemma ParseEntryUnique(e: string, key: string, value: string)
    requires |key| > 0 && (forall i :: 0 <= i < |key| ==> key[i] != '=') && e == key + "=" + value
    ensures ParseEntry(e) == Entry(key, value, true)
  {
    assert e[..|key|] == key && e[|key|] == '=';
    var sep := IndexOf(e, '=');
    assert e[|key| + 1..] == value;
  }

  /** The entry is well formed and its key is `key`. */
  predicate Matches(e: string, key: string) {
    ParseEntry(e).ok && ParseEntry(e).key == key
  }

  function ValueOf(e: string): string {
    ParseEntry(e).value
  }

  /** Entry i is the first entry of env that matches key. */
  predicate FirstMatchAt(env: seq<string>, key: string, i: int) {
    0 <= i < |env| && Matches(env[i], key) && forall j :: 0 <= j < i ==> !Matches(env[j], key)
  }

  /** Entry i is the last entry of env that matches key. */
  predicate LastMatchAt(env: seq<string>, key: string, i: int) {
    0 <= i < |env| && Matches(env[i], key) && forall j :: i < j < |env| ==> !Matches(env[j], key)
  }

  lemma FirstMatchUnique(env: seq<string>, key: string, i: int, i': int)
    requires FirstMatchAt(env, key, i) && FirstMatchAt(env, key, i')
    ensures i == i'
  {
  }

  lemma LastMatchUnique(env: seq<string>, key: string, j: int, j': int)
    requires LastMatchAt(env, key, j) && LastMatchAt(env, key, j')
    ensures j == j'
  {
  }

  predicate HasMatch(env: seq<string>, key: string) {
    exists i :: 0 <= i < |env| && Matches(env[i], key)
  }

  /** What `Get` computes: the value of the first well-formed entry with the key, or ("", false). */
  function Lookup(env: seq<string>, key: string): (r: (string, bool))
    ensures r.1 <==> HasMatch(env, key)
    ensures r.1 ==> exists i :: FirstMatchAt(env, key, i) && r.0 == ValueOf(env[i])
    ensures !r.1 ==> r.0 == ""
  {
    if env == [] then ("", false)
    else if Matches(env[0], key) then
      assert FirstMatchAt(env, key, 0);
      (ValueOf(env[0]), true)
    else
      var r := Lookup(env[1..], key);
      if r.1 then
        var i :| FirstMatchAt(env[1..], key, i) && r.0 == ValueOf(env[1..][i]);
        assert FirstMatchAt(env, key, i + 1);
        r
      else
        assert forall i :: 1 <= i < |env| ==> env[i] == env[1..][i - 1];
        r
  }

  /** `Get`: scan the entries in order and return the value of the first well-formed match. */
  method Get(env: seq<string>, key: string) returns (val: string, ok: bool)
    ensures (val, ok) == Lookup(env, key)
  {
    for i := 0 to |env|
      invariant forall j :: 0 <= j < i ==> !Matches(env[j], key)
    {
      var entry := ParseEntry(env[i]);
      if entry.ok && entry.key == key {
        assert FirstMatchAt(env, key, i);
        return entry.value, true;
      }
    }
    return "", false;
  }

  /** What `All` builds: every well-formed entry inserted in order, so a later entry overwrites an earlier one. */
  function Table(env: seq<string>): map<string, string> {
    if env == [] then map[]
    else
      var last := ParseEntry(env[|env| - 1]);
      var m := Table(env[..|env| - 1]);
      if last.ok then m[last.key := last.value] else m
  }

  /** The keys of `All`'s map are exactly the keys of well-formed entries. */
  lemma {:induction false} TableKeys(env: seq<string>, key: string)
    ensures key in Table(env) <==> HasMatch(env, key)
  {
    if env != [] {
      var rest := env[..|env| - 1];
      TableKeys(rest, key);
      assert forall i :: 0 <= i < |rest| ==> rest[i] == env[i];
      if HasMatch(env, key) && !Matches(env[|env| - 1], key) {
        var i :| 0 <= i < |env| && Matches(env[i], key);
        assert Matches(rest[i], key);
      }
    }
  }

  /** Each key of `All`'s map holds the value of the last entry with that key. */
  lemma {:induction false} TableLast(env: seq<string>, key: string)
    requires key in Table(env)
    ensures exists i :: LastMatchAt(env, key, i) && Table(env)[key] == ValueOf(env[i])
  {
    var rest := env[..|env| - 1];
    if Matches(env[|env| - 1], key) {
      assert LastMatchAt(env, key, |env| - 1);
    } else {
      TableOther(env, key);
      TableLast(rest, key);
      var i :| LastMatchAt(rest, key, i) && Table(rest)[key] == ValueOf(rest[i]);
      assert forall j :: 0 <= j < |rest| ==> rest[j] == env[j];
      assert LastMatchAt(env, key, i);
    }
  }

  /** An entry that does not match key leaves key's place in the table as it was. */
  lemma TableOther(env: seq<string>, key: string)
    requires env != [] && !Matches(env[|env| - 1], key)
    ensures key in Table(env) <==> key in Table(env[..|env| - 1])
    ensures key in Table(env) ==> Table(env)[key] == Table(env[..|env| - 1])[key]
  {
  }

  /** `All`: fold the entries into a map, skipping malformed ones. */
  method All(env: seq<string>) returns (m: map<string, string>)
    ensures m == Table(env)
  {
    m := map[];
    for i := 0 to |env|
      invariant m == Table(env[..i])
    {
      var entry := ParseEntry(env[i]);
      if entry.ok {
        m := m[entry.key := entry.value];
      }
      assert env[..i + 1][..i] == env[..i];
    }
    assert env[..|env|] == env;
  }

  /** `Get` and `All` agree on which keys are present. */
  lemma LookupTableKeys(env: seq<string>, key: string)
    ensures Lookup(env, key).1 <==> key in Table(env)
  {
    TableKeys(env, key);
  }

  /** When every entry with the key carries the same value, `Get` and `All` agree on it. */
  lemma LookupTableAgree(env: seq<string>, key: string)
    requires forall i, j :: 0 <= i < |env| && 0 <= j < |env| && Matches(env[i], key) && Matches(env[j], key) ==>
      ValueOf(env[i]) == ValueOf(env[j])
    ensures key in Table(env) ==> Table(env)[key] == Lookup(env, key).0
  {
    TableKeys(env, key);
    if key in Table(env) {
      TableLast(env, key);
    }
  }

  /** On a duplicated key whose first and last values differ, `Get` and `All` disagree. */
  lemma LookupTableDisagree(env: seq<string>, key: string, i: int, j: int)
    requires FirstMatchAt(env, key, i) && LastMatchAt(env, key, j)
    requires ValueOf(env[i]) != ValueOf(env[j])
    ensures key in Table(env) && Lookup(env, key).1
    ensures Table(env)[key] == ValueOf(env[j]) && Lookup(env, key).0 == ValueOf(env[i])
  {
    assert HasMatch(env, key);
    TableKeys(env, key);
    TableLast(env, key);
    var j' :| LastMatchAt(env, key, j') && Table(env)[key] == ValueOf(env[j']);
    LastMatchUnique(env, key, j, j');
    var i' :| FirstMatchAt(env, key, i') && Lookup(env, key).0 == ValueOf(env[i']);
    FirstMatchUnique(env, key, i, i');
  }

  /** A malformed entry, wherever it stands, changes neither what `Get` finds nor what `All` builds. */
  lemma {:induction false} MalformedIgnored(before: seq<string>, e: string, after: seq<string>, key: string)
    requires !ParseEntry(e).ok
    ensures Lookup(before + [e] + after, key) == Lookup(before + after, key)
    ensures Table(before + [e] + after) == Table(before + after)
  {
    MalformedIgnoredByLookup(before, e, after, key);
    MalformedIgnoredByTable(before, e, after);
  }

  lemma {:induction false} MalformedIgnoredByLookup(before: seq<string>, e: string, after: seq<string>, key: string)
    requires !ParseEntry(e).ok
    ensures Lookup(before + [e] + after, key) == Lookup(before + after, key)
  {
    if before == [] {
      assert before + [e] + after == [e] + after && ([e] + after)[1..] == after;
      assert before + after == after;
    } else {
      MalformedIgnoredByLookup(before[1..], e, after, key);
      assert (before + [e] + after)[1..] == before[1..] + [e] + after;
      assert (before + after)[1..] == before[1..] + after;
    }
  }

  lemma {:induction false} MalformedIgnoredByTable(before: seq<string>, e: string, after: seq<string>)
    requires !ParseEntry(e).ok
    ensures Table(before + [e] + after) == Table(before + after)
  {
    if after == [] {
      assert (before + [e] + after)[..|before| + 1 - 1] == before + after;
    } else {
      var last := after[|after| - 1];
      var front := after[..|after| - 1];
      MalformedIgnoredByTable(before, e, front);
      assert before + [e] + after == (before + [e] + front) + [last];
      assert (before + [e] + after)[..|before + [e] + after| - 1] == before + [e] + front;
      assert (before + after)[..|before + after| - 1] == before + front;
    }
  }

  /** A concrete duplicate: `Get` sees the first entry, `All` the second. */
  lemma DuplicateKeyExample()
    ensures Lookup(["K=first", "K=second"], "K") == ("first", true)
    ensures Table(["K=first", "K=second"])["K"] == "second"
  {
    var env := ["K=first", "K=second"];
    ParseEntryUnique(env[0], "K", "first");
    ParseEntryUnique(env[1], "K", "second");
    assert FirstMatchAt(env, "K", 0) && LastMatchAt(env, "K", 1);
    LookupTableDisagree(env, "K", 0, 1);
  }

  /** `GetInt`: the value parsed as an `int`; missing and unparsable both give (0, false). */
  function GetInt(env: seq<string>, key: string): (r: (int, bool))
    ensures r.1 <==> exists i :: FirstMatchAt(env, key, i) && ParseInt(ValueOf(env[i])).Parsed?
    ensures r.1 ==> exists i :: FirstMatchAt(env, key, i) && ParseInt(ValueOf(env[i])) == Parsed(r.0)
    ensures !r.1 ==> r.0 == 0
  {
    var (s, ok) := Lookup(env, key);
    if !ok then (0, false)
    else
      match ParseInt(s)
      case Parsed(n) => (n, true)
      case _ => (0, false)
  }

  /** The caller of `GetInt` cannot tell a missing variable from one that does not parse. */
  lemma GetIntMissingLikeMalformed(env: seq<string>, key: string)
    ensures !GetInt(env, key).1 <==> !HasMatch(env, key) || !ParseInt(Lookup(env, key).0).Parsed?
    ensures !GetInt(env, key).1 ==> GetInt(env, key) == GetInt([], key)
  {
  }

  /** A variable whose first entry holds the canonical spelling of an `int` reads back as that `int`. */
  lemma GetIntFormat(env: seq<string>, key: string, i: int, n: int)
    requires FirstMatchAt(env, key, i) && ValueOf(env[i]) == FormatInt(n)
    requires MIN_INT <= n <= MAX_INT
    ensures GetInt(env, key) == (n, true)
  {
    ParseFormat(n);
  }

  /** The sample values: "42" and "-1234" read back as numbers, "whatever" as not ok. */
  lemma GetIntExamples()
    ensures GetInt(["TEST_GET_INT=42"], "TEST_GET_INT") == (42, true)
    ensures GetInt(["TEST_GET_INT=-1234"], "TEST_GET_INT") == (-1234, true)
    ensures GetInt(["TEST_GET_INT=whatever"], "TEST_GET_INT") == (0, false)
  {
    assert "TEST_GET_INT=42" == "TEST_GET_INT" + "=" + "42";
    assert "TEST_GET_INT=-1234" == "TEST_GET_INT" + "=" + "-1234";
    assert "TEST_GET_INT=whatever" == "TEST_GET_INT" + "=" + "whatever";
    SingleEntry("TEST_GET_INT=42", "TEST_GET_INT", "42");
    SingleEntry("TEST_GET_INT=-1234", "TEST_GET_INT", "-1234");
    SingleEntry("TEST_GET_INT=whatever", "TEST_GET_INT", "whatever");
    ParseIntExamples();
  }

  lemma SingleEntry(e: string, key: string, value: string)
    requires |key| > 0 && (forall i :: 0 <= i < |key| ==> key[i] != '=') && e == key + "=" + value
    ensures Lookup([e], key) == (value, true)
  {
    ParseEntryUnique(e, key, value);
  }

  /** The variable kinds named in the panic messages of the Must-variants. */
  datatype Kind = StringVar | IntVar | ListVar

  /** The outcome of a Must-variant: the accessor's value, or a panic naming the missing variable. */
  datatype Must<T> = Value(value: T) | Panic(key: string, kind: Kind)

  /** `MustGet`: the value of `Get`, or a panic when the variable is missing. */
  function MustGet(env: seq<string>, key: string): (r: Must<string>)
    ensures r.Value? <==> HasMatch(env, key)
    ensures r.Value? ==> exists i :: FirstMatchAt(env, key, i) && r.value == ValueOf(env[i])
    ensures r.Panic? ==> r == Panic(key, StringVar)
  {
    var (val, ok) := Lookup(env, key);
    if !ok then Panic(key, StringVar) else Value(val)
  }

  /** `MustGetInt`: the value of `GetInt`, or a panic when it reports not ok (missing or unparsable). */
  function MustGetInt(env: seq<string>, key: string): (r: Must<int>)
    ensures r.Value? <==> GetInt(env, key).1
    ensures r.Value? ==> r.value == GetInt(env, key).0
    ensures r.Panic? ==> r == Panic(key, IntVar)
  {
    var (val, ok) := GetInt(env, key);
    if !ok then Panic(key, IntVar) else Value(val)
  }

  /** `MustGetInt` panics on a present variable that does not parse, just as on a missing one. */
  lemma MustGetIntMalformed(env: seq<string>, key: string)
    requires HasMatch(env, key) && ParseInt(Lookup(env, key).0) == ErrSyntax
    ensures MustGetInt(env, key) == MustGetInt([], key) == Panic(key, IntVar)
  {
  }
}
