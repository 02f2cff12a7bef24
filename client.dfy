/**
 * `GrowattServer`: the server URL, the stored session (cookie list and
 * referer), the requests built from them, and `login`'s walk over the
 * `set-cookie` values of its response.
 */
module Client {
  import opened Wrappers
  import opened Json
  import opened Envelope
  import opened Cookies

  const DefaultServerUrl := "https://server.growatt.com/"
  const LoginPage := "login"
  const MixStatusPrefix := "panel/mix/getMIXStatusData?plantId="
  const DeviceListPrefix := "panel/getDevicesByPlantList?plantId="
  const DeviceListSuffix := "&currPage=1"
  const UserAgent := "Mozilla/5.0 (Windows NT 10.0; Win64; x64) AppleWebKit/537.36 (KHTML, like Gecko) Chrome/104.0.0.0 Safari/537.36-11"

  /** The page of `mix_system_status`: the fixed prefix, then the plant id pasted in unescaped, so it can be read back. */
  function MixStatusPage(plantId: string): (p: string)
    ensures |p| == |MixStatusPrefix| + |plantId|
    ensures p[..|MixStatusPrefix|] == MixStatusPrefix && p[|MixStatusPrefix|..] == plantId
  {
    MixStatusPrefix + plantId
  }

  /** The page of `device_list_by_plant`: the plant id, unescaped, between the fixed prefix and the fixed `&currPage=1`. */
  function DeviceListPage(plantId: string): (p: string)
    ensures |p| == |DeviceListPrefix| + |plantId| + |DeviceListSuffix|
    ensures p[..|DeviceListPrefix|] == DeviceListPrefix
    ensures p[|DeviceListPrefix|..|p| - |DeviceListSuffix|] == plantId
    ensures p[|p| - |DeviceListSuffix|..] == DeviceListSuffix
  {
    var p := DeviceListPrefix + plantId + DeviceListSuffix;
    assert p == DeviceListPrefix + (plantId + DeviceListSuffix);
    assert p[|DeviceListPrefix|..] == plantId + DeviceListSuffix;
    assert (plantId + DeviceListSuffix)[..|plantId|] == plantId;
    p
  }

  /** Two plant ids give the same page exactly when they are the same id. */
  lemma PagesInjective(a: string, b: string)
    ensures MixStatusPage(a) == MixStatusPage(b) <==> a == b
    ensures DeviceListPage(a) == DeviceListPage(b) <==> a == b
  {
  }

  /** A byte `HeaderValue::to_str` accepts: visible ASCII or a tab. */
  predicate IsVisibleAscii(c: char) {
    (' ' <= c <= '~') || c == '\t'
  }

  /** `HeaderValue::to_str` succeeds; whatever it accepts, `HeaderValue::from_str` accepts too. */
  predicate VisibleAscii(s: string)
    ensures VisibleAscii(s) ==> HeaderValueParses(s)
  {
    forall i :: 0 <= i < |s| ==> IsVisibleAscii(s[i])
  }

  /** `HeaderValue::from_str` (behind `referer.parse()`) succeeds: no control byte other than a tab, and no DEL. */
  predicate HeaderValueParses(s: string) {
    forall i :: 0 <= i < |s| ==> (s[i] >= ' ' && s[i] as int != 0x7f) || s[i] == '\t'
  }

  /** How many `set-cookie` values the walk gets through before `to_str` fails (all of them if it never does). */
  function WalkLength(hs: seq<string>): (n: nat)
    ensures n <= |hs|
    ensures forall j :: 0 <= j < n ==> VisibleAscii(hs[j])
    ensures n < |hs| ==> !VisibleAscii(hs[n])
  {
    if hs == [] || !VisibleAscii(hs[0]) then 0 else 1 + WalkLength(hs[1..])
  }

  /** A piece of a visible-ASCII value is visible ASCII. */
  lemma VisibleAsciiPiece(s: string, t: string, i: nat)
    requires VisibleAscii(s) && OccursAt(s, t, i)
    ensures VisibleAscii(t)
  {
    forall j | 0 <= j < |t| ensures IsVisibleAscii(t[j]) {
      assert t[j] == s[i + j];
    }
  }

  /** The referer built from a visible-ASCII value is visible ASCII. */
  lemma SessionIdVisible(h: string)
    requires VisibleAscii(h) && SessionId(h).Some?
    ensures VisibleAscii(RefererPrefix + SessionId(h).value)
  {
    var id := SessionId(h).value;
    SessionIdCaptures(h);
    var i: nat :| IsSessionCapture(h, i, id);
    VisibleAsciiPiece(h, id, i + |SessionKey|);
    assert VisibleAscii(RefererPrefix);
  }

  /** The referer a walk leaves is visible ASCII when the start value and every walked header are. */
  lemma {:induction false} RefererAfterVisible(hs: seq<string>, prev: string)
    requires VisibleAscii(prev) && forall j :: 0 <= j < |hs| ==> VisibleAscii(hs[j])
    ensures VisibleAscii(RefererAfter(hs, prev))
    decreases |hs|
  {
    if hs != [] {
      var h := hs[|hs| - 1];
      match SessionId(h)
      case Some(id) =>
        SessionIdVisible(h);
      case None =>
        RefererAfterVisible(hs[..|hs| - 1], prev);
    }
  }

  /** An HTTP request as the client hands it to the transport: URL, headers in order, form fields. */
  datatype Request = Request(url: string, headers: seq<(string, string)>, form: map<string, string>)

  class GrowattServer {
    const serverUrl: string
    /** The `cookie` entries of the session `HeaderMap`, in insertion order. */
    var cookie: seq<string>
    var referer: string

    /**
     * The session can always be sent: every stored cookie came through
     * `to_str`, and so did the id the referer is built from, so the
     * `referer.parse().unwrap()` of the data calls cannot panic.
     */
    ghost predicate Valid()
      reads this
    {
      serverUrl == DefaultServerUrl
      && VisibleAscii(referer)
      && forall i :: 0 <= i < |cookie| ==> VisibleAscii(cookie[i])
    }

    /** `GrowattServer::new`: the production URL and an empty session. */
    constructor ()
      ensures Valid()
      ensures serverUrl == "https://server.growatt.com/" && cookie == [] && referer == ""
    {
      serverUrl := DefaultServerUrl;
      cookie := [];
      referer := "";
    }

    /** `get_url`: the server URL followed directly by the page, with no separator added. */
    function GetUrl(page: string): (url: string)
      reads this
      ensures |url| == |serverUrl| + |page|
      ensures url[..|serverUrl|] == serverUrl && url[|serverUrl|..] == page
    {
      serverUrl + page
    }

    /** The headers of an authorised call: one `cookie` header per stored cookie, in order, then `referer`. */
    function SessionHeaders(): (hs: seq<(string, string)>)
      reads this
      ensures |hs| == |cookie| + 1
      ensures forall i :: 0 <= i < |cookie| ==> hs[i] == ("cookie", cookie[i])
      ensures hs[|cookie|] == ("referer", referer)
    {
      seq(|cookie|, i requires 0 <= i < |cookie| reads this => ("cookie", cookie[i])) + [("referer", referer)]
    }

    /** Every header value of an authorised call parses, so no `unwrap` there can fail. */
    lemma SessionHeadersParse()
      requires Valid()
      ensures forall i :: 0 <= i < |SessionHeaders()| ==> HeaderValueParses(SessionHeaders()[i].1)
    {
      forall i | 0 <= i < |SessionHeaders()| ensures HeaderValueParses(SessionHeaders()[i].1) {
        var v := SessionHeaders()[i].1;
        assert VisibleAscii(v);
      }
    }

    /** The request `login` sends: the login URL, the browser headers, the credentials as form fields. */
    function LoginRequest(username: string, password: string): (r: Request)
      reads this
      ensures r.url == GetUrl(LoginPage)
      ensures r.form.Keys == {"account", "password"} && r.form["account"] == username && r.form["password"] == password
    {
      Request(GetUrl(LoginPage), [("user-agent", UserAgent), ("connection", "keep-alive")],
              map["account" := username, "password" := password])
    }

    /** The request `mix_system_status` sends: the session headers and the `mixSn` form field. */
    function MixStatusRequest(mixId: string, plantId: string): (r: Request)
      reads this
      ensures r.url == GetUrl(MixStatusPage(plantId))
      ensures r.headers == SessionHeaders()
      ensures r.form.Keys == {"mixSn"} && r.form["mixSn"] == mixId
    {
      Request(GetUrl(MixStatusPage(plantId)), SessionHeaders(), map["mixSn" := mixId])
    }

    /** The request `device_list_by_plant` sends: the session headers and no form. */
    function DeviceListRequest(plantId: string): (r: Request)
      reads this
      ensures r.url == GetUrl(DeviceListPage(plantId))
      ensures r.headers == SessionHeaders()
      ensures r.form == map[]
    {
      Request(GetUrl(DeviceListPage(plantId)), SessionHeaders(), map[])
    }

    /**
     * One pass of the `set-cookie` loop of `login` over a value `to_str`
     * accepted: a session match rebuilds the referer and stores the value, a
     * server-id match stores it (again).
     */
    method TakeSetCookie(current: string)
      modifies this
      ensures cookie == old(cookie) + Contribution(current)
      ensures referer == if SessionId(current).Some? then RefererPrefix + SessionId(current).value else old(referer)
    {
      var caps := SessionId(current);
      if caps.Some? {
        referer := RefererPrefix + caps.value;
        cookie := cookie + [current];
      }
      ghost var middle := cookie;
      if HasServerId(current) {
        cookie := cookie + [current];
      }
      assert middle == old(cookie) + (if caps.Some? then [current] else []);
    }

    /**
     * The session step of `login`: empty the cookie list, then walk the
     * `set-cookie` values in order. A value `to_str` rejects ends the walk
     * (and the call) there, keeping what was stored so far.
     */
    method UpdateSession(setCookies: seq<string>) returns (ok: bool)
      requires Valid()
      modifies this
      ensures Valid()
      ensures ok <==> WalkLength(setCookies) == |setCookies|
      ensures cookie == CookiesFrom(setCookies[..WalkLength(setCookies)])
      ensures referer == RefererAfter(setCookies[..WalkLength(setCookies)], old(referer))
    {
      ghost var walked, start := WalkLength(setCookies), referer;
      cookie := [];
      var i := 0;
      assert setCookies[..0] == [];
      while i < |setCookies|
        invariant i <= walked
        invariant cookie == CookiesFrom(setCookies[..i])
        invariant referer == RefererAfter(setCookies[..i], start)
      {
        var current := setCookies[i];
        if !VisibleAscii(current) {
          WalkStops(setCookies, i);
          SessionVisible(setCookies[..i], start);
          return false;
        }
        WalkContinues(setCookies, i);
        WalkStep(setCookies, i, start);
        TakeSetCookie(current);
        i := i + 1;
      }
      assert setCookies[..i] == setCookies;
      SessionVisible(setCookies, start);
      ok := true;
    }

    /**
     * `login` once its response is in: the session step, then the success
     * test on the body. The session update is not undone when the test fails.
     */
    method Login(setCookies: seq<string>, body: string, codec: JsonCodec) returns (r: Result<string, ClientError>)
      requires Valid()
      modifies this
      ensures Valid()
      ensures cookie == CookiesFrom(setCookies[..WalkLength(setCookies)])
      ensures referer == RefererAfter(setCookies[..WalkLength(setCookies)], old(referer))
      ensures WalkLength(setCookies) < |setCookies| ==> r == Err(HeaderToStr)
      ensures WalkLength(setCookies) == |setCookies| ==>
        r == if CheckRes(codec, body) then Ok(body) else Err(InvalidData(MissingSuccessField))
    {
      var ok := UpdateSession(setCookies);
      if !ok {
        return Err(HeaderToStr);
      }
      if CheckRes(codec, body) == false {
        r := Err(InvalidData(MissingSuccessField));
      } else {
        r := Ok(body);
      }
    }
  }

  lemma WalkStops(hs: seq<string>, i: nat)
    requires i <= WalkLength(hs) && i < |hs| && !VisibleAscii(hs[i])
    ensures i == WalkLength(hs)
  {
  }

  lemma WalkContinues(hs: seq<string>, i: nat)
    requires i <= WalkLength(hs) && i < |hs| && VisibleAscii(hs[i])
    ensures i + 1 <= WalkLength(hs)
  {
  }

  /** What a walk stores is visible ASCII when the values it walked were: the `to_str` check guards the session. */
  lemma SessionVisible(walked: seq<string>, prev: string)
    requires VisibleAscii(prev) && forall j :: 0 <= j < |walked| ==> VisibleAscii(walked[j])
    ensures VisibleAscii(RefererAfter(walked, prev))
    ensures forall i :: 0 <= i < |CookiesFrom(walked)| ==> VisibleAscii(CookiesFrom(walked)[i])
  {
    RefererAfterVisible(walked, prev);
    forall i | 0 <= i < |CookiesFrom(walked)| ensures VisibleAscii(CookiesFrom(walked)[i]) {
      CookiesFromSound(walked, CookiesFrom(walked)[i]);
    }
  }

  /** Before any login the data calls still send a (lone, empty) `referer` header, and nothing else of the session. */
  lemma FreshClientHeaders(s: GrowattServer)
    requires s.cookie == [] && s.referer == ""
    ensures s.SessionHeaders() == [("referer", "")]
  {
  }
}
