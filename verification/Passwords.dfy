// Password policy on modification: hashing, minimum length, history. A hash stands for the
// plaintext it was made from, and verifying compares plaintexts.
module Passwords {
  import opened Text

  /** A stored or submitted userPassword value: in plaintext, or already hashed. */
  datatype Value = Plain(text: string) | Hashed(text: string)

  datatype Policy = Policy(minLength: nat, historyCount: nat)

  datatype Failure = TooShort | InHistory

  function Verify(stored: Value, plaintext: string): bool { stored.text == plaintext }

  function Hash(v: Value): Value { Hashed(v.text) }

  function HashAll(vs: seq<Value>): (r: seq<Value>)
    ensures |r| == |vs|
  {
    seq(|vs|, i requires 0 <= i < |vs| => Hash(vs[i]))
  }

  predicate InList(vs: seq<Value>, plaintext: string) { exists i :: 0 <= i < |vs| && Verify(vs[i], plaintext) }

  /** checkNewPassword. */
  function Check(p: Policy, plaintext: string, history: seq<Value>): Option<Failure> {
    if p.minLength > 0 && |plaintext| < p.minLength then Some(TooShort)
    else if p.historyCount > 0 && InList(history, plaintext) then Some(InHistory)
    else None
  }

  /** The first plaintext value that fails its check; values that come hashed pass. */
  function CheckAll(p: Policy, vs: seq<Value>, history: seq<Value>): Option<Failure> {
    if vs == [] then None
    else if vs[0].Plain? && Check(p, vs[0].text, history).Some? then Check(p, vs[0].text, history)
    else CheckAll(p, vs[1..], history)
  }

  /** The history after a change: the previous values first, cut to the policy's length. */
  function NextHistory(p: Policy, before: seq<Value>, history: seq<Value>): seq<Value> {
    if p.historyCount == 0 then history
    else
      var all := HashAll(before) + history;
      if |all| > p.historyCount then all[..p.historyCount] else all
  }

  // ---------------------------------------------------------------------------
  // Comparing value lists
  // ---------------------------------------------------------------------------

  /** The values of b that are marked as used. */
  ghost function Used(b: seq<Value>, used: seq<bool>): multiset<Value>
    requires |used| == |b|
  {
    if b == [] then multiset{}
    else Used(b[..|b| - 1], used[..|b| - 1]) + if used[|b| - 1] then multiset{b[|b| - 1]} else multiset{}
  }

  lemma {:induction false} UsedNone(b: seq<Value>, used: seq<bool>)
    requires |used| == |b| && forall i :: 0 <= i < |b| ==> !used[i]
    ensures Used(b, used) == multiset{}
  {
    if b != [] { UsedNone(b[..|b| - 1], used[..|b| - 1]); }
  }

  lemma {:induction false} UsedOneMore(b: seq<Value>, used: seq<bool>, i: nat)
    requires |used| == |b| && i < |b| && !used[i]
    ensures Used(b, used[i := true]) == Used(b, used) + multiset{b[i]}
  {
    var n := |b| - 1;
    if i == n {
      assert used[i := true][..n] == used[..n];
    } else {
      UsedOneMore(b[..n], used[..n], i);
      assert used[i := true][..n] == used[..n][i := true];
    }
  }

  lemma CountSnoc(b: seq<Value>, x: Value)
    requires b != []
    ensures var n := |b| - 1; multiset(b)[x] == multiset(b[..n])[x] + if b[n] == x then 1 else 0
  {
    assert b == b[..|b| - 1] + [b[|b| - 1]];
  }

  lemma UsedSnoc(b: seq<Value>, used: seq<bool>, x: Value)
    requires |used| == |b| && b != []
    ensures var n := |b| - 1; Used(b, used)[x] == Used(b[..n], used[..n])[x] + if used[n] && b[n] == x then 1 else 0
  {
  }

  lemma {:induction false} UsedWithin(b: seq<Value>, used: seq<bool>, x: Value)
    requires |used| == |b|
    ensures Used(b, used)[x] <= multiset(b)[x]
    ensures (forall i :: 0 <= i < |b| && b[i] == x ==> used[i]) ==> Used(b, used)[x] == multiset(b)[x]
  {
    if b != [] {
      hide Used;
      var n := |b| - 1;
      UsedWithin(b[..n], used[..n], x);
      CountSnoc(b, x);
      UsedSnoc(b, used, x);
    }
  }

  lemma {:induction false} SameSize(a: multiset<Value>, b: seq<Value>)
    requires |a| == |b| && forall x :: a[x] <= multiset(b)[x]
    ensures a == multiset(b)
  {
    assert a <= multiset(b);
    assert multiset(b) == a + (multiset(b) - a);
    assert |multiset(b)| == |b|;
  }

  /** Marks the first unused value of b equal to x, if there is one. */
  method UseUp(b: seq<Value>, used: array<bool>, x: Value) returns (found: bool)
    requires used.Length == |b|
    modifies used
    ensures found ==> Used(b, used[..]) == Used(b, old(used[..])) + multiset{x}
    ensures !found ==> used[..] == old(used[..]) && forall j :: 0 <= j < |b| && b[j] == x ==> used[j]
  {
    for i := 0 to |b|
      invariant used[..] == old(used[..])
      invariant forall j :: 0 <= j < i && b[j] == x ==> used[j]
    {
      if !used[i] && x == b[i] {
        UsedOneMore(b, used[..], i);
        used[i] := true;
        assert used[..] == old(used[..])[i := true];
        return true;
      }
    }
    found := false;
  }

  lemma NotEnough(a: seq<Value>, k: nat, b: seq<Value>, used: seq<bool>)
    requires |used| == |b| && k < |a| && Used(b, used) == multiset(a[..k])
    requires forall j :: 0 <= j < |b| && b[j] == a[k] ==> used[j]
    ensures multiset(a) != multiset(b)
  {
    hide Used;
    UsedWithin(b, used, a[k]);
    PrefixCount(a, k);
  }

  lemma PrefixCount(a: seq<Value>, k: nat)
    requires k < |a|
    ensures multiset(a)[a[k]] > multiset(a[..k])[a[k]]
  {
    var p, q := a[..k], a[k..];
    assert a == p + q;
    assert q[0] == a[k] && a[k] in multiset(q);
  }

  lemma AllUsed(a: seq<Value>, b: seq<Value>, used: seq<bool>)
    requires |used| == |b| && |a| == |b| && Used(b, used) == multiset(a)
    ensures multiset(a) == multiset(b)
  {
    forall x ensures multiset(a)[x] <= multiset(b)[x] {
      UsedWithin(b, used, x);
    }
    assert |multiset(a)| == |a|;
    SameSize(multiset(a), b);
  }

  /** Whether two lists hold the same values, in any order: each value of a uses up an equal one of b. */
  method SameByteSet(a: seq<Value>, b: seq<Value>) returns (same: bool)
    ensures same <==> multiset(a) == multiset(b)
  {
    hide Used;
    if |a| != |b| {
      assert |multiset(a)| == |a| && |multiset(b)| == |b|;
      return false;
    }
    var used := new bool[|b|](i => false);
    UsedNone(b, used[..]);
    assert a[..0] == [];
    for k := 0 to |a|
      invariant Used(b, used[..]) == multiset(a[..k])
    {
      assert a[..k + 1] == a[..k] + [a[k]];
      var found := UseUp(b, used, a[k]);
      if !found {
        NotEnough(a, k, b, used[..]);
        return false;
      }
    }
    assert a[..|a|] == a;
    AllUsed(a, b, used[..]);
    same := true;
  }

  // ---------------------------------------------------------------------------
  // The account
  // ---------------------------------------------------------------------------

  class Account {
    const policy: Policy
    var passwords: seq<Value>
    var history: seq<Value>
    /** pwdChangedTime; passwordExpirationTime; and whether a reset is pending. */
    var changed: Option<string>
    var expires: Option<string>
    var mustReset: bool

    constructor (policy: Policy)
      ensures this.policy == policy && passwords == [] && history == [] && changed == None && expires == None
      ensures !mustReset
    {
      this.policy, passwords, history, changed, expires, mustReset := policy, [], [], None, None, false;
    }

    /** applyAdd: a new entry's plaintext values are checked for length only and hashed. */
    method ApplyAdd(values: seq<Value>, now: string) returns (err: Option<Failure>)
      requires passwords == [] && history == []
      modifies this
      ensures values != [] ==> err == CheckAll(policy, values, [])
      ensures err.None? && values != [] ==> passwords == HashAll(values) && changed == Some(now)
      ensures err.Some? || values == [] ==> passwords == old(passwords) && changed == old(changed)
      ensures history == old(history) && expires == old(expires) && mustReset == old(mustReset)
    {
      if |values| == 0 {
        return None;
      }
      var out;
      err, out := HashChecked(values, []);
      if err.Some? {
        return;
      }
      passwords, changed := out, Some(now);
    }

    /** Checks every plaintext value against the history and hashes it. */
    method HashChecked(values: seq<Value>, old_: seq<Value>) returns (err: Option<Failure>, out: seq<Value>)
      ensures err == CheckAll(policy, values, old_)
      ensures err.None? ==> out == HashAll(values)
    {
      out := [];
      assert values[0..] == values;
      for i := 0 to |values|
        invariant CheckAll(policy, values, old_) == CheckAll(policy, values[i..], old_)
        invariant out == HashAll(values[..i])
      {
        var v := values[i];
        assert values[i..][0] == v && values[i..][1..] == values[i + 1..];
        assert values[..i + 1] == values[..i] + [v];
        if v.Hashed? {
          out := out + [v];
          continue;
        }
        var bad := Check(policy, v.text, old_);
        if bad.Some? {
          return bad, out;
        }
        out := out + [Hash(v)];
      }
      assert values[..|values|] == values;
      err := None;
    }

    /**
     * applyModify, for a modification that sets the password values to the given ones. A
     * rejected one changes nothing.
     */
    method ApplyModify(values: seq<Value>, now: string) returns (err: Option<Failure>)
      modifies this
      ensures multiset(values) == multiset(old(passwords)) ==>
                err == None && passwords == values
                    && unchanged(this`history, this`changed, this`expires, this`mustReset)
      ensures multiset(values) != multiset(old(passwords)) && values == [] ==>
                err == None && passwords == [] && changed == None
                    && unchanged(this`history, this`expires, this`mustReset)
      ensures multiset(values) != multiset(old(passwords)) && values != [] ==>
                err == CheckAll(policy, values, old(history) + old(passwords))
      ensures multiset(values) != multiset(old(passwords)) && values != [] && err.None? ==>
                && passwords == HashAll(values) && history == NextHistory(policy, old(passwords), old(history))
                && changed == Some(now) && expires == None && !mustReset
      ensures err.Some? ==> unchanged(this)
    {
      var before := passwords;
      var same := SameByteSet(before, values);
      if same {
        passwords := values;
        return None;
      }
      if |values| == 0 {
        passwords, changed := [], None;
        return None;
      }
      var out;
      err, out := HashChecked(values, history + before);
      if err.Some? {
        return;
      }
      passwords, changed, expires, mustReset := out, Some(now), None, false;
      history := NextHistory(policy, before, history);
    }
  }

  // ---------------------------------------------------------------------------
  // Runs of replacements
  // ---------------------------------------------------------------------------

  /** The k most recent of the earlier passwords, latest first. */
  ghost function Recent(committed: seq<string>, k: nat): seq<Value> {
    if |committed| == 0 || k == 0 then []
    else [Hashed(committed[|committed| - 1])] + Recent(committed[..|committed| - 1], k - 1)
  }

  lemma {:induction false} RecentFacts(committed: seq<string>, k: nat)
    ensures |Recent(committed, k)| == if |committed| < k then |committed| else k
    ensures forall i :: 0 <= i < |Recent(committed, k)| ==>
              Recent(committed, k)[i] == Hashed(committed[|committed| - 1 - i])
  {
    if |committed| > 0 && k > 0 {
      RecentFacts(committed[..|committed| - 1], k - 1);
    }
  }

  lemma {:induction false} RecentCut(committed: seq<string>, k: nat)
    ensures var all := Recent(committed, k + 1); (if |all| > k then all[..k] else all) == Recent(committed, k)
  {
    RecentFacts(committed, k);
    RecentFacts(committed, k + 1);
  }

  /** No two of any n consecutive passwords are equal. */
  ghost predicate DistinctWindow(committed: seq<string>, n: nat) {
    forall i, j :: 0 <= i < j < |committed| && j - i < n ==> committed[i] != committed[j]
  }

  /** An account whose password has been set to the committed plaintexts one after another. */
  ghost predicate Follows(a: Account, committed: seq<string>)
    reads a
  {
    var n := |committed| - 1;
    && n >= 0 && a.passwords == [Hashed(committed[n])]
    && a.history == Recent(committed[..n], a.policy.historyCount)
    && DistinctWindow(committed, a.policy.historyCount + 2)
  }

  /** A candidate is found in the history or the current value exactly when it is one of the last committed ones. */
  lemma InRecent(committed: seq<string>, h: nat, text: string)
    requires committed != []
    ensures var n := |committed| - 1;
      InList(Recent(committed[..n], h) + [Hashed(committed[n])], text) <==>
        exists j :: 0 <= j <= n && n - j <= h && committed[j] == text
  {
    var n := |committed| - 1;
    var all := Recent(committed[..n], h) + [Hashed(committed[n])];
    RecentFacts(committed[..n], h);
    if i :| 0 <= i < |all| && Verify(all[i], text) {
      var j := if i == |all| - 1 then n else n - 1 - i;
      assert committed[j] == text;
    }
    if j :| 0 <= j <= n && n - j <= h && committed[j] == text {
      var i := if j == n then |all| - 1 else n - 1 - j;
      assert Verify(all[i], text);
    }
  }

  /** Long enough, and not among the last h + 1 committed ones. */
  ghost predicate Accepts(p: Policy, committed: seq<string>, text: string) {
    && !(p.minLength > 0 && |text| < p.minLength)
    && forall j :: 0 <= j < |committed| && |committed| - 1 - j <= p.historyCount ==> committed[j] != text
  }

  /** What is committed when texts are tried one after another. */
  ghost function Accepted(p: Policy, committed: seq<string>, texts: seq<string>): seq<string>
    decreases texts
  {
    if texts == [] then committed
    else Accepted(p, if Accepts(p, committed, texts[0]) then committed + [texts[0]] else committed, texts[1..])
  }

  /** Whatever is tried, any h + 2 consecutive committed passwords are pairwise distinct. */
  lemma {:induction false} AcceptedDistinct(p: Policy, committed: seq<string>, texts: seq<string>)
    requires DistinctWindow(committed, p.historyCount + 2)
    ensures DistinctWindow(Accepted(p, committed, texts), p.historyCount + 2)
    decreases texts
  {
    if texts != [] {
      AcceptedDistinct(p, if Accepts(p, committed, texts[0]) then committed + [texts[0]] else committed, texts[1..]);
    }
  }

  /**
   * Replacing the password with one plaintext value: refused exactly when it is too short
   * or among the last h + 1 committed ones; so any h + 2 consecutive passwords differ, and
   * the history is the h most recent earlier ones.
   */
  method Replace(a: Account, text: string, now: string, ghost committed: seq<string>) returns (err: Option<Failure>)
    requires a.policy.historyCount >= 1 && Follows(a, committed)
    modifies a
    ensures err.None? <==> Accepts(a.policy, committed, text)
    ensures Follows(a, if err.None? then committed + [text] else committed)
  {
    ghost var n, h := |committed| - 1, a.policy.historyCount;
    var values := [Plain(text)];
    InRecent(committed, h, text);
    PlainIsNew(text, a.passwords[0]);
    OneCheck(a.policy, text, a.history + a.passwords);
    err := a.ApplyModify(values, now);
    if err.None? {
      ghost var more := committed + [text];
      assert more[..n + 1] == committed;
      assert HashAll(values) == [Hashed(text)];
      assert committed[..n] == committed[..|committed| - 1];
      HistoryFollows(a.policy, committed);
    }
  }

  lemma PlainIsNew(text: string, v: Value)
    requires v.Hashed?
    ensures multiset([Plain(text)]) != multiset([v])
  {
    assert multiset([Plain(text)])[Plain(text)] == 1;
    assert multiset([v])[Plain(text)] == 0;
  }

  lemma OneCheck(p: Policy, text: string, history: seq<Value>)
    ensures CheckAll(p, [Plain(text)], history) == Check(p, text, history)
  {
    assert [Plain(text)][1..] == [];
  }

  lemma HistoryFollows(p: Policy, committed: seq<string>)
    requires committed != [] && p.historyCount >= 1
    ensures var n := |committed| - 1;
      NextHistory(p, [Hashed(committed[n])], Recent(committed[..n], p.historyCount))
          == Recent(committed, p.historyCount)
  {
    var n, h := |committed| - 1, p.historyCount;
    assert HashAll([Hashed(committed[n])]) == [Hashed(committed[n])];
    RecentCut(committed, h);
  }

  /** Any sequence of replacements after a first password. */
  method RunReplacements(policy: Policy, first: string, texts: seq<string>, now: string)
      returns (a: Account, ghost committed: seq<string>)
    requires policy.historyCount >= 1 && !(policy.minLength > 0 && |first| < policy.minLength)
    ensures fresh(a) && a.policy == policy && Follows(a, committed)
    ensures committed == Accepted(policy, [first], texts) && DistinctWindow(committed, policy.historyCount + 2)
  {
    a := new Account(policy);
    OneCheck(policy, first, []);
    var err := a.ApplyAdd([Plain(first)], now);
    committed := [first];
    assert committed[..0] == [] && Recent([], policy.historyCount) == [];
    assert HashAll([Plain(first)]) == [Hashed(first)];
    assert texts[0..] == texts;
    for i := 0 to |texts|
      invariant fresh(a) && a.policy == policy && Follows(a, committed)
      invariant Accepted(policy, committed, texts[i..]) == Accepted(policy, [first], texts)
    {
      assert texts[i..][0] == texts[i] && texts[i..][1..] == texts[i + 1..];
      err := Replace(a, texts[i], now, committed);
      committed := if err.None? then committed + [texts[i]] else committed;
    }
  }
}
