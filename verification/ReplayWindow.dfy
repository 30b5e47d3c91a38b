/** The bounded list of missing nonces that makes `CryptorManager` a replay window with guarantees
    in both directions (`cryptor_manager.cpp`, lines 39-48 and 89-118). */
module ReplayWindow {
  import opened Wrappers

  const MAX_MISSING := 1000

  datatype Window = Window(newest: Option<nat>, missing: seq<nat>)

  const EMPTY := Window(None, [])

  /** `CanProcessNonce` on an expanded nonce. */
  predicate CanProcess(w: Window, n: nat) {
    w.newest.None? || n > w.newest.value || n in w.missing
  }

  function Min(a: nat, b: nat): nat { if a < b then a else b }

  /** How many of the oldest missing nonces make room for `gap` new ones. */
  function Dropped(count: nat, gap: nat): nat {
    if count + gap > MAX_MISSING then Min(count, count + gap - MAX_MISSING) else 0
  }

  function CountUp(from: nat, count: nat): seq<nat> { seq(count, i requires 0 <= i => from + i) }

  function Without(s: seq<nat>, n: nat): seq<nat> {
    if s == [] then [] else if s[0] == n then s[1..] else [s[0]] + Without(s[1..], n)
  }

  /** The window after a frame with nonce `n` was decrypted. */
  function Report(w: Window, n: nat): Window {
    if w.newest.None? then
      Window(Some(n), w.missing)
    else if n > w.newest.value then
      var gap := Min(n - w.newest.value - 1, MAX_MISSING);
      Window(Some(n), w.missing[Dropped(|w.missing|, gap)..] + CountUp(n - gap, gap))
    else
      w.(missing := Without(w.missing, n))
  }

  /** One arriving frame: its nonce, and whether it decrypts. */
  datatype Attempt = Attempt(nonce: nat, authentic: bool)

  predicate Accepts(w: Window, a: Attempt) { CanProcess(w, a.nonce) && a.authentic }

  /** The window and the nonces accepted, in order, after a run of attempts. */
  ghost function Run(attempts: seq<Attempt>): (Window, seq<nat>) {
    if attempts == [] then (EMPTY, [])
    else
      var (w, accepted) := Run(attempts[..|attempts| - 1]);
      var a := attempts[|attempts| - 1];
      if Accepts(w, a) then (Report(w, a.nonce), accepted + [a.nonce]) else (w, accepted)
  }

  ghost predicate Ascending(s: seq<nat>) { forall i, j :: 0 <= i < j < |s| ==> s[i] < s[j] }

  ghost predicate AllDistinct(s: seq<nat>) { forall i, j :: 0 <= i < j < |s| ==> s[i] != s[j] }

  /** How the window relates to the nonces accepted so far. */
  ghost predicate Tracks(w: Window, accepted: seq<nat>) {
    && AllDistinct(accepted)
    && Ascending(w.missing) && |w.missing| <= MAX_MISSING
    && if accepted == [] then w == EMPTY
       else
         && w.newest.Some? && w.newest.value in accepted
         && (forall a <- accepted :: accepted[0] <= a <= w.newest.value)
         && (forall m <- w.missing :: accepted[0] < m < w.newest.value && m !in accepted)
         && (forall n: nat :: accepted[0] < n < w.newest.value && w.newest.value <= n + MAX_MISSING && n !in accepted
               ==> n in w.missing)
  }

  lemma {:induction false} AscendingSpread(s: seq<nat>, i: nat, j: nat)
    requires Ascending(s) && i <= j < |s|
    ensures s[i] + (j - i) <= s[j]
    decreases j - i
  {
    if i < j { AscendingSpread(s, i, j - 1); }
  }

  /** Making room never drops a nonce that is still within reach of the new newest one. */
  lemma ReachableIsKept(s: seq<nat>, newest: nat, n: nat, i: nat)
    requires Ascending(s) && |s| <= MAX_MISSING && i < |s| && newest < n
    requires forall m <- s :: m < newest
    requires n <= s[i] + MAX_MISSING
    ensures Dropped(|s|, Min(n - newest - 1, MAX_MISSING)) <= i
  {
    AscendingSpread(s, i, |s| - 1);
    assert s[|s| - 1] in s;
  }

  lemma {:induction false} WithoutFirst(s: seq<nat>, n: nat, i: nat)
    requires i <= |s| && n !in s[..i] && (i < |s| ==> s[i] == n)
    ensures Without(s, n) == if i < |s| then s[..i] + s[i + 1..] else s
  {
    if i > 0 {
      assert s[..i][0] == s[0] && s[..i][1..] == s[1..][..i - 1];
      WithoutFirst(s[1..], n, i - 1);
      if i < |s| { assert s[1..][..i - 1] + s[1..][i..] == (s[..i] + s[i + 1..])[1..]; }
    }
  }

  lemma WithoutFacts(s: seq<nat>, n: nat)
    requires Ascending(s)
    ensures Ascending(Without(s, n)) && |Without(s, n)| <= |s|
    ensures forall m :: m in Without(s, n) <==> m in s && m != n
  {
    hide Without;
    if n in s {
      var i :| 0 <= i < |s| && s[i] == n;
      WithoutFirst(s, n, i);
      assert s == s[..i] + [n] + s[i + 1..];
    } else {
      WithoutFirst(s, n, |s|);
    }
  }

  /** The list after a nonce beyond the newest one: what is kept, then the nonces jumped over. */
  lemma GrownList(missing: seq<nat>, newest: nat, n: nat)
    requires Ascending(missing) && |missing| <= MAX_MISSING && newest < n
    requires forall m <- missing :: m < newest
    ensures var gap := Min(n - newest - 1, MAX_MISSING);
      var grown := missing[Dropped(|missing|, gap)..] + CountUp(n - gap, gap);
      && Ascending(grown) && |grown| <= MAX_MISSING
      && (forall m <- grown :: (m in missing || m > newest) && m < n && m != newest)
      && (forall x :: (x in missing || newest < x < n) && n <= x + MAX_MISSING ==> x in grown)
  {
    var gap := Min(n - newest - 1, MAX_MISSING);
    var d := Dropped(|missing|, gap);
    var kept, added := missing[d..], CountUp(n - gap, gap);
    var grown := kept + added;
    assert forall i :: 0 <= i < |kept| ==> kept[i] in missing;
    assert forall i :: 0 <= i < |added| ==> newest < added[i] < n;
    forall x: nat | (x in missing || newest < x < n) && n <= x + MAX_MISSING ensures x in grown {
      if x in missing {
        var i :| 0 <= i < |missing| && missing[i] == x;
        ReachableIsKept(missing, newest, n, i);
        assert grown[i - d] == x;
      } else {
        assert grown[|kept| + (x - (n - gap))] == x;
      }
    }
  }

  lemma ReportNewer(w: Window, accepted: seq<nat>, n: nat)
    requires Tracks(w, accepted) && accepted != [] && n > w.newest.value
    ensures Tracks(Report(w, n), accepted + [n])
  {
    GrownList(w.missing, w.newest.value, n);
    hide Ascending, CountUp, Min, Dropped;
    assert n !in accepted;
  }

  lemma ReportMissing(w: Window, accepted: seq<nat>, n: nat)
    requires Tracks(w, accepted) && accepted != [] && n in w.missing
    ensures Tracks(Report(w, n), accepted + [n])
  {
    WithoutFacts(w.missing, n);
  }

  lemma {:induction false} RunTracks(attempts: seq<Attempt>)
    ensures Tracks(Run(attempts).0, Run(attempts).1)
  {
    if attempts != [] {
      var before := attempts[..|attempts| - 1];
      RunTracks(before);
      var (w, accepted) := Run(before);
      var a := attempts[|attempts| - 1];
      if Accepts(w, a) && accepted != [] {
        if a.nonce > w.newest.value { ReportNewer(w, accepted, a.nonce); } else { ReportMissing(w, accepted, a.nonce); }
      }
    }
  }

  /** What the window promises in both directions: no nonce was accepted twice, the list of missing
      nonces is strictly ascending, below the newest nonce and bounded, nothing accepted or below the
      first nonce can be processed again, and within reach every other nonce still can. */
  ghost predicate TwoSided(w: Window, accepted: seq<nat>) {
    && AllDistinct(accepted)
    && Ascending(w.missing) && |w.missing| <= 1000
    && (w.newest.None? <==> accepted == [])
    && (w.newest.Some? ==>
          && w.newest.value in accepted
          && (forall n <- accepted + w.missing :: n <= w.newest.value)
          && (forall n :: CanProcess(w, n) ==> n > accepted[0] && n !in accepted)
          && (forall n :: n > accepted[0] && w.newest.value <= n + 1000 && n !in accepted ==> CanProcess(w, n)))
  }

  lemma TracksIsTwoSided(w: Window, accepted: seq<nat>)
    requires Tracks(w, accepted)
    ensures TwoSided(w, accepted)
  {}

  lemma WindowIsTwoSided(attempts: seq<Attempt>)
    ensures TwoSided(Run(attempts).0, Run(attempts).1)
  {
    RunTracks(attempts);
    TracksIsTwoSided(Run(attempts).0, Run(attempts).1);
  }

  lemma RunStep(before: seq<Attempt>, a: Attempt)
    ensures var (w, accepted) := Run(before);
      Run(before + [a]) == if Accepts(w, a) then (Report(w, a.nonce), accepted + [a.nonce]) else (w, accepted)
  {
    assert (before + [a])[..|before|] == before;
  }

  /** The reach is tight: one nonce further below the newest one can be lost for good. */
  lemma ReachIsTight(first: nat)
    ensures var newest := first + 1002;
      var (w, accepted) := Run([Attempt(first, true), Attempt(newest, true)]);
      accepted == [first, newest] && newest == (first + 1) + 1001 && !CanProcess(w, first + 1)
  {
    var newest := first + MAX_MISSING + 2;
    var a, b := Attempt(first, true), Attempt(newest, true);
    RunStep([], a);
    RunStep([a], b);
    assert [] + [a] == [a] && [a] + [b] == [a, b];
    assert [] + [first] == [first] && [first] + [newest] == [first, newest];
    assert Run([a]) == (Window(Some(first), []), [first]);
    var added := CountUp(first + 2, MAX_MISSING);
    assert Run([a, b]).0.missing == [] + added == added;
    assert forall m <- added :: m >= first + 2;
  }
}
