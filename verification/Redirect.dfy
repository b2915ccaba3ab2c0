/**
The redirect-loop detector (w3m/file.c, `same_url_p` and `checkRedirection`): a ring that
holds about half of the URLs followed so far answers as if it held all of them.
*/
module Redirect {
  import opened Basics

  /** `ParsedURL`: the parts that name something; the file ends in front of the query, and `fragment` is its label. */
  datatype Url = Url(
    scheme: int, user: Option<string>, pass: Option<string>, host: Option<string>, port: int,
    file: Option<string>, query: Option<string>, fragment: Option<string>)

  predicate EqualFold(a: string, b: string) {
    |a| == |b| && forall i :: 0 <= i < |a| ==> Lower(a[i]) == Lower(b[i])
  }

  /** `same_url_p`: some parts are not compared, and a missing one of the first URL matches anything. */
  predicate SameUrl(a: Url, b: Url) {
    && a.scheme == b.scheme && a.port == b.port
    && (a.host.Some? ==> b.host.Some? && EqualFold(a.host.value, b.host.value))
    && (a.file.Some? ==> b.file.Some? && a.file.value == b.file.value)
  }

  // ----- the decision, on the whole history

  /** The loop test at step n = |history|, on the true u(n-1) and u(n/2). */
  predicate Loops(history: seq<Url>, u: Url) {
    var n := |history|;
    n > 0 && (SameUrl(u, history[n - 1]) || (n % 2 == 0 && SameUrl(u, history[n / 2])))
  }

  predicate Accepts(history: seq<Url>, u: Url, limit: int) {
    |history| < limit && !Loops(history, u)
  }

  /** Every URL of the sequence was accepted in its turn. */
  ghost predicate Run(us: seq<Url>, limit: int) {
    forall n :: 0 <= n < |us| ==> Accepts(us[..n], us[n], limit)
  }

  /** From index `m` on, the sequence repeats with period `l`. */
  ghost predicate Periodic(us: seq<Url>, m: nat, l: nat) {
    forall i :: m <= i && i + l < |us| ==> us[i + l] == us[i]
  }

  lemma {:induction false} PeriodsAdd(us: seq<Url>, m: nat, l: nat, i: nat, k: nat)
    requires Periodic(us, m, l) && m <= i && i + k * l < |us|
    ensures us[i + k * l] == us[i]
  {
    if k > 0 {
      var j := i + (k - 1) * l;
      assert j + l == i + k * l;
      PeriodsAdd(us, m, l, i, k - 1);
      assert us[j + l] == us[j];
    }
  }

  /** The least k with k * l positive and not below the tail. */
  function Laps(m: nat, l: nat): (k: nat)
    requires l > 0
    ensures k > 0 && k * l >= m && (k == 1 || (k - 1) * l < m)
  {
    if m <= l then 1 else 1 + Laps(m - l, l)
  }

  lemma MeetingIsRefused(us: seq<Url>, limit: int, q: nat)
    requires q > 0 && 2 * q < |us| && us[2 * q] == us[q]
    ensures !Accepts(us[..2 * q], us[2 * q], limit)
  {
    assert us[..2 * q][q] == us[q];
  }

  /** A chain with tail m and period l is refused at step 2kl at the latest. */
  lemma LoopIsRefused(us: seq<Url>, limit: int, m: nat, l: nat)
    requires l > 0 && Periodic(us, m, l) && Run(us, limit)
    ensures |us| <= 2 * (Laps(m, l) * l)
    ensures |us| <= if limit < 0 then 0 else limit
  {
    hide Accepts;
    var k := Laps(m, l);
    var q := k * l;
    if |us| > 2 * q {
      PeriodsAdd(us, m, l, q, k);
      MeetingIsRefused(us, limit, q);
    }
    if |us| > 0 {
      BelowLimit(us, limit);
    }
  }

  lemma BelowLimit(us: seq<Url>, limit: int)
    requires Run(us, limit) && |us| > 0
    ensures |us| <= limit
  {
    assert Accepts(us[..|us| - 1], us[|us| - 1], limit);
  }

  /** A refusal below the limit means that a URL which `same_url_p` takes for the same was met before. */
  lemma RefusalMeansMatch(history: seq<Url>, u: Url, limit: int)
    requires !Accepts(history, u, limit) && |history| < limit
    ensures exists k :: 0 <= k < |history| && SameUrl(u, history[k])
  {
  }

  // ----- when a refusal means that the URL itself was met before

  /** The same URL, in all its parts, up to the case of the host. */
  predicate Identical(a: Url, b: Url) {
    && a == b.(host := a.host)
    && (a.host.Some? <==> b.host.Some?) && (a.host.Some? ==> EqualFold(a.host.value, b.host.value))
  }

  /** A chain of these URLs is refused below the limit only at a URL that it has met before. */
  ghost predicate RefusesRepeatsOnly(urls: iset<Url>, limit: int) {
    forall history, u :: Run(history, limit) && |history| < limit && !Accepts(history, u, limit) && u in urls
      && (forall k :: 0 <= k < |history| ==> history[k] in urls)
      ==> exists k :: 0 <= k < |history| && Identical(u, history[k])
  }

  /** `same_url_p` tells these URLs apart. */
  ghost predicate ToldApart(urls: iset<Url>) {
    forall a, b :: a in urls && b in urls && SameUrl(b, a) ==> Identical(b, a)
  }

  /** Refusals are justified on exactly those URLs that `same_url_p` tells apart, or when the limit is below two. */
  lemma RepeatsOnlyIff(urls: iset<Url>, limit: int)
    ensures RefusesRepeatsOnly(urls, limit) <==> limit < 2 || ToldApart(urls)
  {
    if limit < 2 || ToldApart(urls) {
      forall history, u | Run(history, limit) && |history| < limit && !Accepts(history, u, limit) && u in urls
        && (forall k :: 0 <= k < |history| ==> history[k] in urls)
        ensures exists k :: 0 <= k < |history| && Identical(u, history[k])
      {
        RefusalMeansMatch(history, u, limit);
        var k :| 0 <= k < |history| && SameUrl(u, history[k]);
        assert history[k] in urls;
      }
    } else {
      var a, b :| a in urls && b in urls && SameUrl(b, a) && !Identical(b, a);
      assert Run([a], limit) && !Accepts([a], b, limit);
      assert !exists k :: 0 <= k < |[a]| && Identical(b, [a][k]);
    }
  }

  /** A URL of a host and a file, and nothing that is not compared. */
  predicate Simple(u: Url) {
    u.host.Some? && u.file.Some? && u.user.None? && u.pass.None? && u.query.None? && u.fragment.None?
  }

  /** Such URLs are told apart, so that their chains are refused below the limit only at a repeat. */
  lemma SimpleUrlsAreToldApart(urls: iset<Url>, limit: int)
    requires forall u :: u in urls ==> Simple(u)
    ensures ToldApart(urls) && RefusesRepeatsOnly(urls, limit)
  {
    RepeatsOnlyIff(urls, limit);
  }

  /** Written in small letters. */
  predicate Small(s: string) {
    forall i :: 0 <= i < |s| ==> !('A' <= s[i] <= 'Z')
  }

  /** On simple URLs with hosts in small letters, the test is equality with the last one and, at even steps, with the one in the middle. */
  lemma SimpleStep(history: seq<Url>, u: Url, limit: int)
    requires Simple(u) && Small(u.host.value)
    requires forall k :: 0 <= k < |history| ==> Simple(history[k]) && Small(history[k].host.value)
    ensures var n := |history|;
            Accepts(history, u, limit) <==> n < limit && (n > 0 ==> u != history[n - 1] && (n % 2 == 0 ==> u != history[n / 2]))
  {
    var n := |history|;
    forall k | 0 <= k < n
      ensures SameUrl(u, history[k]) <==> u == history[k]
    {
      SmallHosts(u.host.value, history[k].host.value);
    }
  }

  lemma SmallHosts(a: string, b: string)
    requires Small(a) && Small(b)
    ensures EqualFold(a, b) <==> a == b
  {
    if EqualFold(a, b) {
      assert forall i :: 0 <= i < |a| ==> Lower(a[i]) == Lower(b[i]);
    }
  }

  /** The case of a host does not matter. */
  lemma CaseIsIgnored(a: Url, host: string)
    requires a.host.Some? && |host| == |a.host.value|
    requires forall i :: 0 <= i < |host| ==>
      host[i] == a.host.value[i] || ('a' <= host[i] <= 'z' && a.host.value[i] as int == host[i] as int - 32)
    ensures SameUrl(a, a.(host := Some(host))) && SameUrl(a.(host := Some(host)), a)
  {
  }

  /** A URL that repeats the last one is refused at every step, and so is any at the limit. */
  lemma LastIsRefused(history: seq<Url>, u: Url, limit: int)
    requires (history != [] && u == history[|history| - 1]) || |history| >= limit
    ensures !Accepts(history, u, limit)
  {
  }

  /** "http://h/a?s=1" that redirects to "http://h/a?s=2" is refused as a loop. */
  lemma QueryIsIgnored(limit: int)
    requires limit >= 2
    ensures var a := Url(0, None, None, Some("h"), 80, Some("/a"), Some("s=1"), None);
            var b := a.(query := Some("s=2"));
            Run([a], limit) && !Accepts([a], b, limit) && !Identical(b, a) && !RefusesRepeatsOnly(iset{a, b}, limit)
  {
    var a := Url(0, None, None, Some("h"), 80, Some("/a"), Some("s=1"), None);
    var b := a.(query := Some("s=2"));
    assert SameUrl(b, a) && b.query.value[2] != a.query.value[2];
    RepeatsOnlyIff(iset{a, b}, limit);
  }

  // ----- the ring

  class Guard {
    const followRedirection: int
    var puv: array?<Url>
    var nredir: int
    var nredirSize: int
    ghost var history: seq<Url>

    ghost predicate Valid()
      reads this, puv
    {
      && nredir == |history| && Run(history, followRedirection)
      && (puv == null <==> nredir == 0) && (puv == null <==> nredirSize == 0)
      && (puv != null ==> nredir <= followRedirection)
      && (puv != null ==> puv.Length == nredirSize == followRedirection / 2 + 1)
      && (puv != null ==> forall k :: 0 <= k < nredir && nredir <= k + nredirSize ==> puv[k % nredirSize] == history[k])
    }

    constructor (followRedirection: int)
      ensures Valid() && history == [] && this.followRedirection == followRedirection
    {
      this.followRedirection := followRedirection;
      puv, nredir, nredirSize := null, 0, 0;
      history := [];
    }

    /** `checkRedirection(NULL)`. */
    method Reset()
      modifies this
      ensures Valid() && history == []
    {
      nredir, nredirSize, puv := 0, 0, null;
      history := [];
    }

    /** `checkRedirection(pu)`: the answer is the one the whole history gives. */
    method Check(pu: Url) returns (ok: bool)
      requires Valid()
      modifies this, puv
      ensures Valid() && (puv == old(puv) || fresh(puv))
      ensures ok <==> Accepts(old(history), pu, followRedirection)
      ensures history == if ok then old(history) + [pu] else old(history)
    {
      if nredir >= followRedirection {
        return false;
      }
      if nredirSize > 0 {
        assert puv[(nredir - 1) % nredirSize] == history[nredir - 1];
        assert puv[nredir / 2 % nredirSize] == history[nredir / 2];
        if SameUrl(pu, puv[(nredir - 1) % nredirSize])
          || (nredir % 2 == 0 && SameUrl(pu, puv[nredir / 2 % nredirSize])) {
          return false;
        }
      }
      if puv == null {
        nredirSize := followRedirection / 2 + 1;
        puv := new Url[nredirSize](_ => Url(0, None, None, None, 0, None, None, None));
      }
      RunGoesOn(history, pu, followRedirection);
      Store(pu);
      ok := true;
    }

    method Store(pu: Url)
      requires Run(history + [pu], followRedirection)
      requires puv != null && nredir == |history| < followRedirection && puv.Length == nredirSize == followRedirection / 2 + 1
      requires forall k :: 0 <= k < nredir && nredir <= k + nredirSize ==> puv[k % nredirSize] == history[k]
      modifies this`nredir, this`history, puv
      ensures Valid() && history == old(history) + [pu]
    {
      var slot := nredir % nredirSize;
      forall k | 0 <= k < nredir && nredir < k + nredirSize
        ensures k % nredirSize != slot
      {
        DifferentSlots(k, nredir, nredirSize);
      }
      puv[slot] := pu;
      history := history + [pu];
      nredir := nredir + 1;
    }
  }

  lemma RunGoesOn(us: seq<Url>, u: Url, limit: int)
    requires Run(us, limit) && Accepts(us, u, limit)
    ensures Run(us + [u], limit)
  {
    var all := us + [u];
    forall n | 0 <= n < |all|
      ensures Accepts(all[..n], all[n], limit)
    {
      assert all[..n] == us[..n];
    }
    assert us[..|us|] == us;
  }

  /** Follows a chain of redirections from a fresh start until one is refused; returns how many were accepted. */
  method Follow(guard: Guard, chain: seq<Url>) returns (n: nat)
    requires guard.Valid()
    modifies guard, guard.puv
    ensures n <= |chain| && Run(chain[..n], guard.followRedirection)
    ensures n < |chain| ==> !Accepts(chain[..n], chain[n], guard.followRedirection)
    ensures forall m, l :: 0 <= m && 0 < l && Periodic(chain, m, l) ==> n <= 2 * (Laps(m, l) * l)
  {
    guard.Reset();
    n := 0;
    while n < |chain|
      invariant n <= |chain| && guard.Valid() && guard.history == chain[..n]
      invariant guard.puv == null || fresh(guard.puv)
    {
      var ok := guard.Check(chain[n]);
      if !ok {
        break;
      }
      assert chain[..n + 1] == chain[..n] + [chain[n]];
      n := n + 1;
    }
    forall m, l | 0 <= m && 0 < l && Periodic(chain, m, l)
      ensures n <= 2 * (Laps(m, l) * l)
    {
      assert Periodic(chain[..n], m, l);
      LoopIsRefused(chain[..n], guard.followRedirection, m, l);
    }
  }

  lemma DifferentSlots(j: int, k: int, n: int)
    requires 0 <= j < k < j + n
    ensures j % n != k % n
  {
    var d := k / n - j / n;
    assert k - j == n * d + (k % n - j % n);
    assert d <= 0 ==> n * d <= 0;
    assert d > 0 ==> n * d >= n;
  }
}
