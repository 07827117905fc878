/**
 * App/Lib/Helpers.php: redirect, config, RandomString, getIP and rmdir_,
 * with the response side effects (header, http_response_code, setcookie,
 * die) written as Effect values.
 */
module Helpers {
  import opened Php

  datatype Cookie = Cookie(
    name: string,
    value: Value,
    expires: int,
    path: string,
    secure: bool,
    httpOnly: bool,
    sameSite: string)

  /** What a handler does to the response. */
  datatype Effect =
    | Header(line: string)
    | ResponseCode(code: int)
    | SetCookie(cookie: Cookie)
    | ReadFile(path: string)  // readfile(): the file's bytes become the body
    | Exit

  // ---------------------------------------------------------------------------
  // redirect($page = null)

  /**
   * redirect($page): `"Location: " . APP_URL . $page ?? '/'`. Concatenation
   * binds tighter than `??`, and a concatenation is never null, so the '/'
   * fallback is never taken: a missing page adds nothing after APP_URL.
   */
  function Redirect(appUrl: string, page: Option<string>): (r: Effect)
    ensures r.Header?
    ensures r.line == "Location: " + appUrl + page.GetOr("")
    ensures "Location: " + appUrl <= r.line && r.line != "/"
  {
    // `.` turns a null page into "", and the concatenation is never null ...
    var concatenated: Option<string> := Some("Location: " + appUrl + page.GetOr(""));
    // ... so `?? '/'` keeps it
    Header(concatenated.GetOr("/"))
  }

  /** redirect() without a page targets APP_URL exactly; the '/' fallback is dead. */
  lemma RedirectWithoutPage(appUrl: string)
    ensures Redirect(appUrl, None).line == "Location: " + appUrl
    ensures Redirect(appUrl, None) != Header("Location: " + appUrl + "/")
  {
    assert |Redirect(appUrl, None).line| == |"Location: " + appUrl|;
  }

  // ---------------------------------------------------------------------------
  // config()

  /** substr($s, 0, 2). */
  function FirstTwo(s: string): (r: string)
    ensures r <= s && |r| == (if |s| < 2 then |s| else 2)
  {
    if |s| < 2 then s else s[..2]
  }

  /**
   * config(): $_ENV with APP_LANG overwritten by the first two characters of
   * the Accept-Language header, or "es" when the header is absent.
   */
  function Config(env: map<string, string>, acceptLanguage: Option<string>): (r: map<string, string>)
    ensures r.Keys == env.Keys + {"APP_LANG"}
    ensures acceptLanguage.None? ==> r["APP_LANG"] == "es"
    ensures acceptLanguage.Some? ==> r["APP_LANG"] <= acceptLanguage.value && |r["APP_LANG"]| <= 2
    ensures acceptLanguage.Some? && |acceptLanguage.value| >= 2 ==> |r["APP_LANG"]| == 2
    ensures acceptLanguage.Some? && |acceptLanguage.value| < 2 ==> r["APP_LANG"] == acceptLanguage.value
    ensures forall k :: k in env && k != "APP_LANG" ==> r[k] == env[k]
  {
    env["APP_LANG" := FirstTwo(acceptLanguage.GetOr("es"))]
  }

  // ---------------------------------------------------------------------------
  // RandomString($length = 10)

  const Digits: string := "0123456789"
  const Lower: string := "abcdefghijklmnopqrstuvwxyz"
  const Upper: string := "ABCDEFGHIJKLMNOPQRSTUVWXYZ"

  /** $characters: digits, then lower-case, then upper-case letters. */
  const Alphabet: string := Digits + Lower + Upper

  predicate Alphanumeric(ch: char) {
    ('0' <= ch <= '9') || ('a' <= ch <= 'z') || ('A' <= ch <= 'Z')
  }

  lemma DigitsInRange()
    ensures forall k :: 0 <= k < |Digits| ==> '0' <= Digits[k] <= '9'
  {
  }

  lemma LowerInRange()
    ensures forall k :: 0 <= k < |Lower| ==> 'a' <= Lower[k] <= 'z'
  {
  }

  lemma UpperInRange()
    ensures forall k :: 0 <= k < |Upper| ==> 'A' <= Upper[k] <= 'Z'
  {
  }

  /** The alphabet has the 62 ASCII letters and digits and nothing else. */
  lemma AlphabetIsAlphanumeric()
    ensures |Alphabet| == 62
    ensures forall k :: 0 <= k < |Alphabet| ==> Alphanumeric(Alphabet[k])
  {
    DigitsInRange();
    LowerInRange();
    UpperInRange();
    forall k | 0 <= k < |Alphabet| ensures Alphanumeric(Alphabet[k]) {
      if k < 10 {
        assert Alphabet[k] == Digits[k];
      } else if k < 36 {
        assert Alphabet[k] == Lower[k - 10];
      } else {
        assert Alphabet[k] == Upper[k - 36];
      }
    }
  }

  /**
   * RandomString($length): appends one alphabet character per iteration.
   * random_int(0, 61) is the abstract input `draws`: draw i picks character i.
   */
  method RandomString(length: int, draws: seq<nat>) returns (r: string)
    requires length <= |draws|
    requires forall i :: 0 <= i < |draws| ==> draws[i] < |Alphabet|
    ensures |r| == (if length > 0 then length else 0)
    ensures forall i :: 0 <= i < |r| ==> r[i] == Alphabet[draws[i]]
    ensures forall i :: 0 <= i < |r| ==> Alphanumeric(r[i])
  {
    AlphabetIsAlphanumeric();
    r := "";
    var i := 0;
    while i < length
      invariant 0 <= i <= (if length > 0 then length else 0)
      invariant |r| == i
      invariant forall k :: 0 <= k < i ==> r[k] == Alphabet[draws[k]]
    {
      r := r + [Alphabet[draws[i]]];
      i := i + 1;
    }
  }

  // ---------------------------------------------------------------------------
  // getIP()

  const CfConnectingIp := "HTTP_CF_CONNECTING_IP"
  const ClientIp := "HTTP_CLIENT_IP"
  const ForwardedFor := "HTTP_X_FORWARDED_FOR"
  const RemoteAddr := "REMOTE_ADDR"

  datatype IpChoice =
    | Ip(addr: string)
    | Undefined  // REMOTE_ADDR is read although it is missing

  /**
   * getIP(): behind CloudFlare the connecting IP first overwrites REMOTE_ADDR
   * and HTTP_CLIENT_IP in $_SERVER; then the client IP wins if it is a valid
   * IP, else X-Forwarded-For if valid, else REMOTE_ADDR unchecked.
   * FILTER_VALIDATE_IP is the abstract input `validIp`; the updated $_SERVER
   * is returned as `after`.
   */
  method GetIp(server: map<string, string>, validIp: string -> bool)
    returns (ip: IpChoice, after: map<string, string>)
    ensures CfConnectingIp in server ==>
      after == server[RemoteAddr := server[CfConnectingIp]][ClientIp := server[CfConnectingIp]]
    ensures CfConnectingIp !in server ==> after == server
    ensures ClientIp in after && validIp(after[ClientIp]) ==> ip == Ip(after[ClientIp])
    ensures !(ClientIp in after && validIp(after[ClientIp])) && ForwardedFor in after && validIp(after[ForwardedFor])
      ==> ip == Ip(after[ForwardedFor])
    ensures !(ClientIp in after && validIp(after[ClientIp])) && !(ForwardedFor in after && validIp(after[ForwardedFor]))
      ==> ip == (if RemoteAddr in after then Ip(after[RemoteAddr]) else Undefined)
  {
    after := server;
    if CfConnectingIp in after {
      var cf := after[CfConnectingIp];
      after := after[RemoteAddr := cf];
      after := after[ClientIp := cf];
    }
    var client := if ClientIp in after then Some(after[ClientIp]) else None;
    var forward := if ForwardedFor in after then Some(after[ForwardedFor]) else None;
    var remote := if RemoteAddr in after then Ip(after[RemoteAddr]) else Undefined;
    if client.Some? && validIp(client.value) {
      ip := Ip(client.value);
    } else if forward.Some? && validIp(forward.value) {
      ip := Ip(forward.value);
    } else {
      ip := remote;
    }
  }

  /** Behind CloudFlare, a valid connecting IP is the answer and becomes REMOTE_ADDR. */
  method CloudFlareWins(server: map<string, string>, validIp: string -> bool) returns (ip: IpChoice, after: map<string, string>)
    requires CfConnectingIp in server && validIp(server[CfConnectingIp])
    ensures ip == Ip(server[CfConnectingIp])
    ensures RemoteAddr in after && after[RemoteAddr] == server[CfConnectingIp]
    ensures ClientIp in after && after[ClientIp] == server[CfConnectingIp]
  {
    ip, after := GetIp(server, validIp);
  }

  // ---------------------------------------------------------------------------
  // rmdir_($path, $views = false) over an abstract directory tree

  datatype Entry =
    | File(name: string)
    | Dir(name: string, children: seq<Entry>)

  const GitKeep := ".gitkeep"

  /** The .gitkeep entries reachable without passing through one. */
  function KeepsIn(cs: seq<Entry>): nat
    decreases cs
  {
    if |cs| == 0 then 0 else KeepsAt(cs[0]) + KeepsIn(cs[1..])
  }

  function KeepsAt(e: Entry): nat
    decreases e
  {
    if e.name == GitKeep then 1
    else match e
      case File(_) => 0
      case Dir(_, cs) => KeepsIn(cs)
  }

  /** Every entry is a .gitkeep or a non-empty directory leading to one. */
  predicate OnlyKeepsIn(cs: seq<Entry>)
    decreases cs
  {
    forall i :: 0 <= i < |cs| ==> OnlyKeepsAt(cs[i])
  }

  predicate OnlyKeepsAt(e: Entry)
    decreases e
  {
    e.name == GitKeep || (e.Dir? && |e.children| > 0 && OnlyKeepsIn(e.children))
  }

  /**
   * r is what a sweep may leave of cs: its entries are, in order, distinct
   * entries of cs with the same name and kind, and a kept directory's
   * children are in turn what may be left of its own children.
   */
  predicate PrunedIn(r: seq<Entry>, cs: seq<Entry>)
    decreases cs
  {
    |r| == 0 || (|cs| > 0 && ((PrunedAt(r[0], cs[0]) && PrunedIn(r[1..], cs[1..])) || PrunedIn(r, cs[1..])))
  }

  predicate PrunedAt(kept: Entry, e: Entry)
    decreases e
  {
    && kept.name == e.name && kept.Dir? == e.Dir?
    && (kept.Dir? && e.Dir? ==> PrunedIn(kept.children, e.children))
  }

  lemma {:induction false} PrunedInRefl(cs: seq<Entry>)
    ensures PrunedIn(cs, cs)
    decreases cs
  {
    if |cs| > 0 {
      PrunedAtRefl(cs[0]);
      PrunedInRefl(cs[1..]);
    }
  }

  lemma {:induction false} PrunedAtRefl(e: Entry)
    ensures PrunedAt(e, e)
    decreases e
  {
    if e.Dir? {
      PrunedInRefl(e.children);
    }
  }

  /** Dropping the first entry, or keeping a pruned copy of it, prunes the whole list. */
  lemma PrunedInCons(head: seq<Entry>, tail: seq<Entry>, cs: seq<Entry>)
    requires |cs| > 0 && |head| <= 1
    requires |head| == 1 ==> PrunedAt(head[0], cs[0])
    requires PrunedIn(tail, cs[1..])
    ensures PrunedIn(head + tail, cs)
  {
    if |head| == 1 {
      assert (head + tail)[0] == head[0] && (head + tail)[1..] == tail;
    } else {
      assert head + tail == tail;
    }
  }

  /** A non-empty sweep result still holds a .gitkeep: it is never a tree of empty directories. */
  lemma {:induction false} OnlyKeepsInHasKeep(cs: seq<Entry>)
    requires OnlyKeepsIn(cs) && |cs| > 0
    ensures KeepsIn(cs) > 0
    decreases cs
  {
    OnlyKeepsAtHasKeep(cs[0]);
  }

  lemma {:induction false} OnlyKeepsAtHasKeep(e: Entry)
    requires OnlyKeepsAt(e)
    ensures KeepsAt(e) > 0
    decreases e
  {
    if e.name != GitKeep {
      OnlyKeepsInHasKeep(e.children);
    }
  }

  lemma {:induction false} KeepsInAppend(a: seq<Entry>, b: seq<Entry>)
    ensures KeepsIn(a + b) == KeepsIn(a) + KeepsIn(b)
    decreases |a|
  {
    if |a| > 0 {
      assert (a + b)[0] == a[0];
      assert (a + b)[1..] == a[1..] + b;
      KeepsInAppend(a[1..], b);
    } else {
      assert a + b == b;
    }
  }

  lemma OnlyKeepsInAppend(a: seq<Entry>, b: seq<Entry>)
    requires OnlyKeepsIn(a) && OnlyKeepsIn(b)
    ensures OnlyKeepsIn(a + b)
  {
    forall i | 0 <= i < |a + b| ensures OnlyKeepsAt((a + b)[i]) {
      if i < |a| { assert (a + b)[i] == a[i]; } else { assert (a + b)[i] == b[i - |a|]; }
    }
  }

  /**
   * The loop of rmdir_ over one directory's entries: entries named .gitkeep
   * are skipped, sub-directories are emptied recursively and then removed if
   * that left them empty, every other file is unlinked. The result is what
   * stays on disk: every .gitkeep and nothing that does not lead to one.
   */
  function SweepChildren(cs: seq<Entry>): (r: seq<Entry>)
    ensures KeepsIn(r) == KeepsIn(cs)
    ensures OnlyKeepsIn(r)
    ensures PrunedIn(r, cs)
    decreases cs
  {
    if |cs| == 0 then []
    else
      var head := SweepEntry(cs[0]);
      var tail := SweepChildren(cs[1..]);
      KeepsInAppend(head, tail);
      OnlyKeepsInAppend(head, tail);
      PrunedInCons(head, tail, cs);
      head + tail
  }

  /** One entry of that loop: what stays of it (nothing, or the entry swept). */
  function SweepEntry(e: Entry): (r: seq<Entry>)
    ensures |r| <= 1
    ensures KeepsIn(r) == KeepsAt(e)
    ensures OnlyKeepsIn(r)
    ensures |r| == 1 ==> PrunedAt(r[0], e)
    ensures e.name == GitKeep ==> r == [e]
    decreases e
  {
    if e.name == GitKeep then
      assert [e][1..] == [];
      PrunedAtRefl(e);
      [e]
    else match e
      case File(_) => []
      case Dir(n, cs) =>
        var left := SweepChildren(cs);
        if |left| == 0 then [] else
          assert [Dir(n, left)][1..] == [];
          [Dir(n, left)]
  }

  /** `$path` with a '/' appended unless it already ends in one. */
  function DirPath(path: string): (r: string)
    ensures |r| > 0 && r[|r| - 1] == '/'
    ensures path <= r && |r| <= |path| + 1
    ensures |path| > 0 && path[|path| - 1] == '/' ==> r == path
  {
    if |path| > 0 && path[|path| - 1] == '/' then path else path + "/"
  }

  lemma DirPathIdempotent(path: string)
    ensures DirPath(DirPath(path)) == DirPath(path)
  {
  }

  datatype RmOutcome =
    | NotADirectory(message: string)            // InvalidArgumentException
    | Swept(returned: Value, remaining: Option<Entry>)

  /**
   * rmdir_($path, $views): a non-directory throws InvalidArgumentException;
   * otherwise the contents are swept; with $views the directory itself is
   * kept and true is returned, without it the directory is removed (true)
   * when it ended up empty and otherwise stays (the function returns null).
   */
  function RmDir(path: string, target: Entry, views: bool): (r: RmOutcome)
    ensures r.NotADirectory? <==> target.File?
    ensures r.NotADirectory? ==> r.message == path + " is not a directory"
    ensures r.Swept? ==> r.returned == Bool(true) || r.returned == Null
    ensures r.Swept? && views ==> r.returned == Bool(true) && r.remaining.Some?
    ensures r.Swept? && r.remaining.Some? ==>
      r.remaining.value.Dir? && r.remaining.value.name == target.name
      && KeepsIn(r.remaining.value.children) == KeepsIn(target.children)
      && OnlyKeepsIn(r.remaining.value.children)
      && PrunedIn(r.remaining.value.children, target.children)
    ensures r.Swept? && r.remaining.None? ==> KeepsIn(target.children) == 0
    ensures r.Swept? && !views ==>
      && (r.remaining.None? <==> KeepsIn(target.children) == 0)
      && (r.returned == Bool(true) <==> r.remaining.None?)
  {
    match target
    case File(_) => NotADirectory(path + " is not a directory")
    case Dir(n, cs) =>
      var left := SweepChildren(cs);
      if views then Swept(Bool(true), Some(Dir(n, left)))
      else if |left| == 0 then Swept(Bool(true), None)
      else
        OnlyKeepsInHasKeep(left);
        Swept(Null, Some(Dir(n, left)))
  }
}
