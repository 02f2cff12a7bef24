/**
 * The two patterns `login` tests every `set-cookie` value against, and the
 * cookie list and referer that walking the values in order produces.
 */
module Cookies {
  import opened Wrappers

  const SessionKey := "JSESSIONID="
  const ServerKey := "SERVERID="
  /** Fixed: it does not follow the client's server URL. */
  const RefererPrefix := "https://server.growatt.com/index;jsessionid="

  /** `pat` occurs in `s` starting at index `i`. */
  predicate OccursAt(s: string, pat: string, i: nat) {
    i + |pat| <= |s| && s[i..i + |pat|] == pat
  }

  /** The regex `JSESSIONID=([^;]+)` matches at `i`: the key, then at least one character other than `;`. */
  predicate SessionMatchAt(s: string, i: nat) {
    OccursAt(s, SessionKey, i) && i + |SessionKey| < |s| && s[i + |SessionKey|] != ';'
  }

  /** The leftmost match of the session pattern at or after `k`. */
  function FindSession(s: string, k: nat): (r: Option<nat>)
    ensures r.Some? ==> k <= r.value && SessionMatchAt(s, r.value)
    decreases |s| - k
  {
    if k + |SessionKey| >= |s| then None
    else if SessionMatchAt(s, k) then Some(k)
    else FindSession(s, k + 1)
  }

  lemma {:induction false} FindSessionLeftmost(s: string, k: nat)
    ensures FindSession(s, k).Some? ==> k <= FindSession(s, k).value && SessionMatchAt(s, FindSession(s, k).value)
    ensures FindSession(s, k).Some? ==> forall j :: k <= j < FindSession(s, k).value ==> !SessionMatchAt(s, j)
    ensures FindSession(s, k).None? ==> forall j :: k <= j ==> !SessionMatchAt(s, j)
    decreases |s| - k
  {
    if k + |SessionKey| < |s| && !SessionMatchAt(s, k) {
      FindSessionLeftmost(s, k + 1);
    }
  }

  /** The greedy `[^;]+`: the longest run of characters other than `;` starting at `k`. */
  function RunFrom(s: string, k: nat): (r: string)
    requires k <= |s|
    ensures |r| <= |s| - k
    ensures k < |s| && s[k] != ';' ==> |r| > 0
    decreases |s| - k
  {
    if k == |s| || s[k] == ';' then [] else [s[k]] + RunFrom(s, k + 1)
  }

  /** `r` is the longest `;`-free run of `s` starting at `k`. */
  predicate IsMaximalRun(s: string, k: nat, r: string) {
    OccursAt(s, r, k)
    && (forall j :: 0 <= j < |r| ==> r[j] != ';')
    && (k + |r| == |s| || s[k + |r|] == ';')
  }

  lemma {:induction false} RunFromMaximal(s: string, k: nat)
    requires k <= |s|
    ensures IsMaximalRun(s, k, RunFrom(s, k))
    decreases |s| - k
  {
    if k < |s| && s[k] != ';' {
      RunFromMaximal(s, k + 1);
      var r := RunFrom(s, k + 1);
      assert s[k..k + 1 + |r|] == [s[k]] + s[k + 1..k + 1 + |r|];
    }
  }

  /** Capture group 1 of `JSESSIONID=([^;]+)` on `s`, if the pattern matches anywhere. */
  function SessionId(s: string): (r: Option<string>)
    ensures r.Some? ==> 0 < |r.value| <= |s| - |SessionKey|
  {
    match FindSession(s, 0)
    case None => None
    case Some(i) => Some(RunFrom(s, i + |SessionKey|))
  }

  /**
   * `id` is what the regex captures when its leftmost match starts at `i`:
   * no match starts earlier, and `id` is the whole `;`-free run after the key.
   */
  predicate IsSessionCapture(s: string, i: nat, id: string) {
    SessionMatchAt(s, i)
    && (forall j :: 0 <= j < i ==> !SessionMatchAt(s, j))
    && IsMaximalRun(s, i + |SessionKey|, id)
  }

  /**
   * The session pattern captures exactly when it matches somewhere, and then it
   * captures the nonempty maximal run after the leftmost match.
   */
  lemma SessionIdCaptures(s: string)
    ensures SessionId(s).None? <==> forall i :: !SessionMatchAt(s, i)
    ensures SessionId(s).Some? ==> |SessionId(s).value| > 0
    ensures SessionId(s).Some? ==> exists i :: IsSessionCapture(s, i, SessionId(s).value)
  {
    FindSessionLeftmost(s, 0);
    if FindSession(s, 0).Some? {
      var i := FindSession(s, 0).value;
      RunFromMaximal(s, i + |SessionKey|);
      assert IsSessionCapture(s, i, SessionId(s).value);
    }
  }

  /** `pat` occurs in `s` at or after `k`. */
  function ContainsFrom(s: string, pat: string, k: nat): (r: bool)
    ensures r ==> k + |pat| <= |s|
    decreases |s| - k
  {
    if k + |pat| > |s| then false
    else if OccursAt(s, pat, k) then true
    else ContainsFrom(s, pat, k + 1)
  }

  lemma {:induction false} ContainsFromOccurs(s: string, pat: string, k: nat)
    ensures ContainsFrom(s, pat, k) <==> exists i :: k <= i && OccursAt(s, pat, i)
    decreases |s| - k
  {
    if k + |pat| <= |s| && !OccursAt(s, pat, k) {
      ContainsFromOccurs(s, pat, k + 1);
      assert forall i :: k <= i && OccursAt(s, pat, i) ==> k + 1 <= i;
    }
  }

  /** The regex `SERVERID=` finds a match. */
  predicate HasServerId(s: string)
    ensures HasServerId(s) ==> |s| >= |ServerKey|
  {
    ContainsFrom(s, ServerKey, 0)
  }

  /** What one `set-cookie` value adds to the list: itself once per pattern it matches. */
  function Contribution(h: string): (c: seq<string>)
    ensures |c| <= 2 && forall i :: 0 <= i < |c| ==> c[i] == h
    ensures c == [] <==> SessionId(h).None? && !HasServerId(h)
  {
    (if SessionId(h).Some? then [h] else []) + (if HasServerId(h) then [h] else [])
  }

  /** The cookie list after walking `hs`, starting from the emptied list. */
  function CookiesFrom(hs: seq<string>): (cs: seq<string>)
    ensures |cs| <= 2 * |hs|
  {
    if hs == [] then [] else CookiesFrom(hs[..|hs| - 1]) + Contribution(hs[|hs| - 1])
  }

  /** The referer after walking `hs` from `prev`: each session match overwrites it, others leave it be. */
  function RefererAfter(hs: seq<string>, prev: string): (r: string)
    ensures r == prev || (|RefererPrefix| < |r| && r[..|RefererPrefix|] == RefererPrefix)
  {
    if hs == [] then prev
    else match SessionId(hs[|hs| - 1])
      case Some(id) => RefererPrefix + id
      case None => RefererAfter(hs[..|hs| - 1], prev)
  }

  /** One more step of the walk: the next value's contribution is appended, and a session match overwrites the referer. */
  lemma WalkStep(hs: seq<string>, i: nat, prev: string)
    requires i < |hs|
    ensures CookiesFrom(hs[..i + 1]) == CookiesFrom(hs[..i]) + Contribution(hs[i])
    ensures RefererAfter(hs[..i + 1], prev)
         == if SessionId(hs[i]).Some? then RefererPrefix + SessionId(hs[i]).value else RefererAfter(hs[..i], prev)
  {
    assert hs[..i + 1][..i] == hs[..i];
  }

  /**
   * Each header value appears in the list once for every time it was sent and
   * every pattern it matches: twice per copy if it matches both, never if it
   * matches neither. Nothing else is in the list, so no cookie of an earlier
   * login survives.
   */
  lemma {:induction false} CookiesFromCount(hs: seq<string>, c: string)
    ensures multiset(CookiesFrom(hs))[c]
         == (if SessionId(c).Some? then multiset(hs)[c] else 0) + (if HasServerId(c) then multiset(hs)[c] else 0)
  {
    if hs != [] {
      var init, h := hs[..|hs| - 1], hs[|hs| - 1];
      assert hs == init + [h];
      CookiesFromCount(init, c);
      assert multiset(hs) == multiset(init) + multiset{h};
      assert multiset(CookiesFrom(hs)) == multiset(CookiesFrom(init)) + multiset(Contribution(h));
    }
  }

  /** Walking two batches of headers one after the other is walking their concatenation: header order is kept. */
  lemma {:induction false} CookiesFromAppend(a: seq<string>, b: seq<string>)
    ensures CookiesFrom(a + b) == CookiesFrom(a) + CookiesFrom(b)
    decreases |b|
  {
    if b == [] {
      assert a + b == a;
    } else {
      var init, h := b[..|b| - 1], b[|b| - 1];
      assert (a + b)[..|a + b| - 1] == a + init;
      assert (a + b)[|a + b| - 1] == h;
      assert CookiesFrom(b) == CookiesFrom(init) + Contribution(h);
      assert CookiesFrom(a + b) == CookiesFrom(a + init) + Contribution(h);
      CookiesFromAppend(a, init);
      assert CookiesFrom(a) + CookiesFrom(init) + Contribution(h) == CookiesFrom(a) + (CookiesFrom(init) + Contribution(h));
    }
  }

  /** Every stored cookie is one of the header values sent, and it matches one of the two patterns. */
  lemma CookiesFromSound(hs: seq<string>, c: string)
    requires c in CookiesFrom(hs)
    ensures c in hs && (SessionId(c).Some? || HasServerId(c))
  {
    CookiesFromCount(hs, c);
  }

  /** The last header value that matches the session pattern decides the referer. */
  lemma {:induction false} RefererFromLastSession(hs: seq<string>, prev: string, k: nat)
    requires k < |hs| && SessionId(hs[k]).Some?
    requires forall j :: k < j < |hs| ==> SessionId(hs[j]).None?
    ensures RefererAfter(hs, prev) == RefererPrefix + SessionId(hs[k]).value
    decreases |hs|
  {
    if k < |hs| - 1 {
      RefererFromLastSession(hs[..|hs| - 1], prev, k);
    }
  }

  /** With no session match among the headers the referer keeps its previous value: it is never cleared. */
  lemma {:induction false} RefererKeptWithoutSession(hs: seq<string>, prev: string)
    requires forall j :: 0 <= j < |hs| ==> SessionId(hs[j]).None?
    ensures RefererAfter(hs, prev) == prev
    decreases |hs|
  {
    if hs != [] {
      RefererKeptWithoutSession(hs[..|hs| - 1], prev);
    }
  }

  /**
   * A value that starts with `JSESSIONID=`, then an id free of `;`, then either
   * nothing or a `;`, has exactly that id as its session id.
   */
  lemma SessionIdOfPrefixed(id: string, rest: string)
    requires |id| > 0 && forall j :: 0 <= j < |id| ==> id[j] != ';'
    requires rest == [] || rest[0] == ';'
    ensures SessionId(SessionKey + id + rest) == Some(id)
  {
    var s := SessionKey + id + rest;
    assert s[..|SessionKey|] == SessionKey;
    assert s[|SessionKey|] == id[0];
    assert FindSession(s, 0) == Some(0);
    RunFromExact(s, |SessionKey|, id);
  }

  lemma {:induction false} RunFromExact(s: string, k: nat, id: string)
    requires k + |id| <= |s| && s[k..k + |id|] == id
    requires forall j :: 0 <= j < |id| ==> id[j] != ';'
    requires k + |id| == |s| || s[k + |id|] == ';'
    ensures RunFrom(s, k) == id
    decreases |id|
  {
    if id != [] {
      assert s[k] == id[0];
      assert s[k + 1..k + 1 + |id[1..]|] == id[1..];
      RunFromExact(s, k + 1, id[1..]);
    }
  }

  /** A value that lacks some character of `SERVERID=` cannot contain it. */
  lemma NoServerIdWithout(s: string, c: char)
    requires c in ServerKey && c !in s
    ensures !HasServerId(s)
  {
    ContainsFromOccurs(s, ServerKey, 0);
    var m :| 0 <= m < |ServerKey| && ServerKey[m] == c;
    forall i: nat | OccursAt(s, ServerKey, i)
      ensures false
    {
      assert false;
    }
  }

  /** A value that lacks some character of `JSESSIONID=` carries no session id. */
  lemma NoSessionWithout(s: string, c: char)
    requires c in SessionKey && c !in s
    ensures SessionId(s).None?
  {
    SessionIdCaptures(s);
    var m :| 0 <= m < |SessionKey| && SessionKey[m] == c;
    forall i: nat | SessionMatchAt(s, i)
      ensures false
    {
      assert false;
    }
  }

  /** A value that starts with `SERVERID=` matches the server-id pattern. */
  lemma HasServerIdOfPrefixed(rest: string)
    ensures HasServerId(ServerKey + rest)
  {
    assert (ServerKey + rest)[0..|ServerKey|] == ServerKey;
  }

  /**
   * A walk whose only value is a server-id cookie stores that cookie and keeps
   * whatever referer an earlier login left: the session is neither empty nor
   * built from one login.
   */
  lemma ServerOnlyExample(prev: string)
    ensures CookiesFrom(["SERVERID=s1; Path=/"]) == ["SERVERID=s1; Path=/"]
    ensures RefererAfter(["SERVERID=s1; Path=/"], prev) == prev
  {
    var h := "SERVERID=s1; Path=/";
    assert ServerKey + "s1; Path=/" == h;
    HasServerIdOfPrefixed("s1; Path=/");
    assert 'J' !in h;
    NoSessionWithout(h, 'J');
    assert [h][..0] == [];
  }

  /** A single value matching only the session pattern is stored once and sets the referer from its id. */
  lemma WalkSingleSession(h: string, prev: string)
    requires SessionId(h).Some? && !HasServerId(h)
    ensures CookiesFrom([h]) == [h]
    ensures RefererAfter([h], prev) == RefererPrefix + SessionId(h).value
  {
    assert [h][..0] == [];
  }

  /** Example: `JSESSIONID=ABC123; Path=/` carries the session id `ABC123`... */
  lemma ExampleSessionId()
    ensures SessionId("JSESSIONID=ABC123; Path=/") == Some("ABC123")
  {
    SessionIdOfPrefixed("ABC123", "; Path=/");
    assert SessionKey + "ABC123" + "; Path=/" == "JSESSIONID=ABC123; Path=/";
  }

  /** ... and no server id. */
  lemma ExampleNoServerId()
    ensures !HasServerId("JSESSIONID=ABC123; Path=/")
  {
    assert 'V' !in "JSESSIONID=ABC123; Path=/";
    NoServerIdWithout("JSESSIONID=ABC123; Path=/", 'V');
  }

  /**
   * The same example walked as the whole `set-cookie` list: the value is stored
   * once and the referer becomes `https://server.growatt.com/index;jsessionid=ABC123`.
   */
  lemma SessionExample(prev: string)
    ensures CookiesFrom(["JSESSIONID=ABC123; Path=/"]) == ["JSESSIONID=ABC123; Path=/"]
    ensures RefererAfter(["JSESSIONID=ABC123; Path=/"], prev) == "https://server.growatt.com/index;jsessionid=ABC123"
  {
    ExampleSessionId();
    ExampleNoServerId();
    WalkSingleSession("JSESSIONID=ABC123; Path=/", prev);
    assert RefererPrefix + "ABC123" == "https://server.growatt.com/index;jsessionid=ABC123";
  }
}
