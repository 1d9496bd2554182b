/**
 The cloud connection: server selection, connection attempts with redirects, retries and the fallback to IPv4,
 waiting while the network interface is down, backoff, and the main loop that reconnects. What the network answers and
 what the token lookups find is given from outside; what the clock and other threads do is arbitrary.
 */
module Connection {
  import opened Backoff
  import opened ConnectionTrace
  import opened Time
  import opened Wrappers
  import WebpaUrl

  const FLAGS_IPV4_ONLY := 2

  datatype Found = FindSuccess | FindInvalidDefault | FindJwtFail

  /** Cut: the part of the run that is looked at ends here. */
  datatype Waited = WaitSuccess | WaitActionRetry | WaitFail
  datatype Followed = Online | Lost | Halted | FollowCut
  datatype Tried = Connected | GaveUp | TriedCut
  datatype IfUp = Up | WaitError | UpCut
  datatype Created = Done | NoDefault | NoServer | CreatedCut

  /** The server that a URL names, if it is accepted. */
  function Named(url: string): Option<Server> {
    var s := WebpaUrl.ServerOf(url);
    if s.None? then None
    else Some(Server(Some(s.value.addr), s.value.port, if s.value.insecure then 1 else 0))
  }

  /** `named` is the parser; stated over ParsesAt so that only named URLs are looked at. */
  ghost predicate Parses(named: string -> Option<Server>) {
    forall url {:trigger ParsesAt(named, url)} :: ParsesAt(named, url)
  }

  ghost predicate ParsesAt(named: string -> Option<Server>, url: string) {
    named(url) == Named(url)
  }

  /** The URL of a redirect answer, without the prefix the library puts before it. */
  function Target(location: string): string {
    if "Redirect:" <= location then location[9..] else location
  }

  lemma TargetStrips(url: string)
    ensures Target("Redirect:" + url) == url
    ensures !("Redirect:" <= url) ==> Target(url) == url
  {
    assert ("Redirect:" + url)[9..] == url;
  }

  /** Each answer's location names what the parser makes of it. */
  ghost predicate Honest(answers: nat -> Answer, named: string -> Option<Server>) {
    forall n: nat {:trigger HonestAt(answers, named, n)} :: HonestAt(answers, named, n)
  }

  ghost predicate HonestAt(answers: nat -> Answer, named: string -> Option<Server>, n: nat) {
    answers(n).Refused? ==> answers(n).names == named(Target(answers(n).location))
  }

  /** A server is overwritten by parsing a URL into it; a URL that is refused leaves the old port. */
  method ParseServerUrl(url: string, was: Server, ghost named: string -> Option<Server>) returns (server: Server)
    requires Parses(named)
    ensures server == if named(url).Some? then named(url).value else Server(None, was.port, -1)
    ensures (server.addr.Some? <==> named(url).Some?) && (server.allowInsecure < 0 <==> named(url).None?)
  {
    assert ParsesAt(named, url);
    var allowInsecure, addr, port := WebpaUrl.ParseWebpaUrl(url);
    server := Server(addr, if allowInsecure < 0 then was.port else port, allowInsecure);
  }

  class Connector {
    const webpaUrl: string
    const acquireJwt: bool
    const flags: nat
    ghost const named: string -> Option<Server>    // the server that a URL names: the parser
    const answers: nat -> Answer            // what the network answers to each attempt in turn
    const tokens: nat -> Option<string>     // the endpoint of the token that each lookup finds, if it is accepted
    const downs: nat -> bool                // whether each look at the interface finds it down
    var asked: nat                // attempts answered so far
    var lookups: nat              // tokens looked up so far
    var looks: nat                // looks at the interface so far
    var defaults: Server
    var jwt: Server
    var redirect: Server
    var current: Option<Which>    // which of the three the context points at
    var conn: Option<nat>         // the global connection
    var handedOut: nat            // connections the library has handed out
    var cloudOnline: bool
    var shutdown: bool
    var closeRetry: bool
    var patience: nat             // how many more loop rounds are looked at
    ghost var trace: seq<Event>
    ghost var stand: Stand        // where the trace stands

    function Get(which: Which): Server
      reads this`defaults, this`jwt, this`redirect
    {
      match which
      case Default => defaults
      case Jwt => jwt
      case Redirect => redirect
    }

    /**
     The open handles are exactly the global connection, the answers heard are the network's, until shutdown "online"
     means there is a connection, and shutdown was only seen when it was set.
     */
    ghost predicate Valid()
      reads this`trace, this`stand, this`conn, this`handedOut, this`cloudOnline, this`shutdown, this`asked
    {
      var heard :=
        Parses(named) && Honest(answers, named) && Recorded(trace, stand, answers) && |stand.answers| == asked;
      var held := stand.live == (if conn.Some? then {conn.value} else {}) && stand.handles == handedOut;
      var shown := (cloudOnline && !shutdown ==> conn.Some?) && (stand.stopped ==> shutdown);
      heard && held && shown
    }

    ghost predicate Gives(lookup: nat) {
      tokens(lookup).Some? && named(tokens(lookup).value).Some?
    }

    /** The servers known are what the configured URL and the last token looked up name. */
    ghost predicate Listed()
      reads this`defaults, this`jwt, this`lookups
    {
      (defaults.addr.Some? ==> named(webpaUrl) == Some(defaults)) &&
      (jwt.addr.Some? ==> lookups > 0 && Gives(lookups - 1) && named(tokens(lookups - 1).value) == Some(jwt))
    }

    /** The context points at the server the trace stands at, and it has an address. */
    ghost predicate Pointed()
      reads this`trace, this`stand, this`current, this`defaults, this`jwt, this`redirect
    {
      current.Some? && Get(current.value).addr.Some? && stand.forced == (flags != 0) &&
      stand.current == Some(Choice(current.value, Get(current.value)))
    }

    /** Ready for the next attempt of a round. */
    ghost predicate Ready()
      reads this
    {
      var ready := Valid() && Pointed() && conn.None? && ToFollowUp(stand.phase);
      ready
    }

    /** The end of a run, or of what is looked at: nothing is open. */
    ghost predicate Ended()
      reads this
    {
      var ended := Valid() && Listed() && conn.None?;
      ended
    }

    /** Between rounds: the configured URL was accepted, and no redirect is remembered. */
    ghost predicate Running()
      reads this
    {
      var running := Valid() && Listed() && redirect.addr.None? && defaults.addr.Some? && Rested(stand.phase);
      running
    }

    constructor (webpaUrl: string, acquireJwt: bool, flags: nat, patience: nat, answers: nat -> Answer,
                 tokens: nat -> Option<string>, downs: nat -> bool, ghost named: string -> Option<Server>)
      requires Parses(named) && Honest(answers, named)
      ensures Valid() && Listed() && conn.None? && redirect.addr.None? && defaults.addr.None?
      ensures trace == [] && stand == START
      ensures this.webpaUrl == webpaUrl && this.acquireJwt == acquireJwt && this.flags == flags
      ensures this.answers == answers && this.tokens == tokens && this.downs == downs && this.named == named
    {
      this.webpaUrl, this.acquireJwt, this.flags, this.patience := webpaUrl, acquireJwt, flags, patience;
      this.answers, this.tokens, this.downs, this.named := answers, tokens, downs, named;
      asked, lookups, looks := 0, 0, 0;
      defaults, jwt, redirect := Server(None, 0, 0), Server(None, 0, 0), Server(None, 0, 0);
      current, conn, handedOut := None, None, 0;
      cloudOnline, shutdown, closeRetry := false, false, false;
      trace, stand := [], START;
    }

    ghost method Log(e: Event)
      requires Recorded(trace, stand, answers) && StepOk(stand, e) && Expected(stand, e, answers)
      modifies this`trace, this`stand
      ensures trace == old(trace) + [e] && stand == After(old(stand), e) && Recorded(trace, stand, answers)
    {
      Record(trace, stand, e, answers);
      trace, stand := trace + [e], After(stand, e);
    }

    /** The shutdown flag is set by a signal at any time, and never cleared. */
    method Poll() returns (stop: bool)
      modifies this`shutdown
      ensures stop == shutdown && (old(shutdown) ==> shutdown)
    {
      var signalled: bool := *;
      shutdown := shutdown || signalled;
      stop := shutdown;
    }

    /** A redirect wins over the JWT's server, which wins over the default. */
    method SetCurrentServer()
      requires defaults.addr.Some?
      modifies this`current
      ensures current.Some? && Get(current.value).addr.Some?
      ensures current.value == if redirect.addr.Some? then Redirect else if jwt.addr.Some? then Jwt else Default
    {
      if redirect.addr.Some? {
        current := Some(Redirect);
      } else if jwt.addr.Some? {
        current := Some(Jwt);
      } else {
        current := Some(Default);
      }
    }

    /** Forgets all servers, parses the configured default and, when asked to, gets a server from the JWT. */
    method FindServers() returns (found: Found)
      requires Parses(named)
      modifies this`defaults, this`jwt, this`redirect, this`lookups
      ensures Listed() && redirect.addr.None?
      ensures found == if named(webpaUrl).None? then FindInvalidDefault
                       else if acquireJwt && !Gives(old(lookups)) then FindJwtFail
                       else FindSuccess
      ensures if named(webpaUrl).Some? then defaults.addr.Some? && Some(defaults) == named(webpaUrl)
              else defaults.addr.None?
      ensures if named(webpaUrl).Some? && acquireJwt && Gives(old(lookups)) then
                jwt.addr.Some? && Some(jwt) == named(tokens(old(lookups)).value)
              else jwt.addr.None?
      ensures lookups == old(lookups) + if named(webpaUrl).Some? && acquireJwt then 1 else 0
    {
      redirect, jwt, defaults := redirect.Freed(), jwt.Freed(), defaults.Freed();
      defaults := ParseServerUrl(webpaUrl, defaults, named);
      if defaults.allowInsecure < 0 {
        return FindInvalidDefault;
      }
      if acquireJwt {
        var token := tokens(lookups);
        lookups := lookups + 1;
        if token.Some? {
          jwt := ParseServerUrl(token.value, jwt, named);
        } else {
          jwt := jwt.(allowInsecure := -1);
        }
        if jwt.allowInsecure < 0 {
          return FindJwtFail;
        }
      }
      return FindSuccess;
    }

    /** One attempt at the current server; the library may refuse it. */
    method NopollConnect(ipv6: bool) returns (connected: bool)
      requires Valid() && Pointed() && conn.None? && !stand.stopped && MayTry(stand, ipv6)
      modifies this`conn, this`handedOut, this`trace, this`stand
      ensures Valid() && Pointed() && connected == conn.Some? && connected == !answers(asked).NoConnection?
      ensures stand.phase == Trying(ipv6) && stand.tries == old(stand).tries + [ipv6]
      ensures stand.delays == old(stand).delays && !stand.stopped
    {
      Log(Attempt(Choice(current.value, Get(current.value)), ipv6));
      if !answers(asked).NoConnection? {
        Log(Opened(handedOut));
        conn, handedOut := Some(handedOut), handedOut + 1;
      } else {
        conn := None;
      }
      connected := conn.Some?;
    }

    /** Frees the redirect server and parses the new one; when it is accepted it becomes the current server. */
    method TakeRedirect(url: string) returns (taken: bool)
      requires Parses(named)
      modifies this`redirect, this`current
      ensures taken <==> named(url).Some?
      ensures if taken then named(url) == Some(redirect) && redirect.addr.Some? && current == Some(Redirect)
              else redirect.addr.None? && redirect.allowInsecure == -1 && current == old(current)
    {
      redirect := redirect.Freed();
      redirect := ParseServerUrl(url, redirect, named);
      if redirect.allowInsecure < 0 {
        return false;
      }
      current := Some(Redirect);
      return true;
    }

    /** The server in use is freed when it is the redirect server and the next redirect names none. */
    ghost predicate Spoiled(answer: Answer)
      reads this`current
    {
      current == Some(Redirect) && BadRedirect(answer)
    }

    /** The trace has heard an answer that the fields do not show yet. */
    ghost predicate Ahead(answer: Answer)
      reads this`trace, this`stand, this`current, this`defaults, this`jwt, this`redirect
    {
      current.Some? && Get(current.value).addr.Some? && stand.forced == (flags != 0) &&
      stand.current == Redirected(Some(Choice(current.value, Get(current.value))), answer)
    }

    /**
     Waits for the handshake. A redirect frees the redirect server before parsing the new one, even while it is
     the current server: when the new one cannot be parsed, its insecure flag is negative.
     */
    method WaitConnectionReady(answer: Answer, ghost n: nat) returns (r: Waited)
      requires Parses(named) && Honest(answers, named) && answer == answers(n) && (answer.Ready? || answer.Refused?)
      requires Ahead(answer)
      modifies this`redirect, this`current
      ensures r.WaitSuccess? <==> answer.Ready?
      ensures r.WaitActionRetry? <==> AsksRetry(answer)
      ensures current == if Redirects(answer) then Some(Redirect) else old(current)
      ensures if Redirects(answer) then answer.names == Some(redirect)
              else if BadRedirect(answer) then redirect.addr.None? && redirect.allowInsecure == -1
              else redirect == old(redirect)
      ensures if old(Spoiled(answer)) then stand.current.None? else Pointed()
    {
      if answer.Ready? {
        return WaitSuccess;
      }
      assert HonestAt(answers, named, n);
      if IsRedirect(answer.status) {
        var taken := TakeRedirect(Target(answer.location));
        return if taken then WaitActionRetry else WaitFail;
      }
      if answer.status == 403 {
        return WaitActionRetry;
      }
      return WaitFail;
    }

    /** Closes a connection; the cloud status becomes offline. */
    method CloseAndUnref(handle: Option<nat>)
      requires Valid() && handle == conn
      modifies this`cloudOnline, this`trace, this`stand
      ensures Recorded(trace, stand, answers) && stand == old(stand).(live := {})
      ensures conn.Some? ==> !cloudOnline
      ensures conn.None? ==> cloudOnline == old(cloudOnline)
    {
      if handle.Some? {
        Log(Closed(handle.value));
        cloudOnline := false;
      }
    }

    /** Hears the answer to the attempt under way. */
    method Hear() returns (answer: Answer)
      requires Valid() && Pointed() && stand.phase.Trying?
      modifies this`asked, this`trace, this`stand
      ensures Valid() && answer == answers(old(asked)) && asked == old(asked) + 1
      ensures stand == After(old(stand), Answered(answer)) && Ahead(answer)
    {
      answer := answers(asked);
      Log(Answered(answer));
      asked := asked + 1;
    }

    /** What an attempt leaves, told from the answer to it: a connection exactly when it is ready. */
    ghost predicate Settled(r: Waited, answer: Answer)
      reads this
    {
      var settled :=
        Valid() && (r.WaitSuccess? <==> answer.Ready?) && (r.WaitActionRetry? <==> AsksRetry(answer)) &&
        (r.WaitSuccess? <==> conn.Some?);
      settled
    }

    /** After the answer: the handshake, and the close when it fails. */
    method Settle(connected: bool, answer: Answer, ghost ipv6: bool) returns (r: Waited)
      requires Valid() && Ahead(answer) && asked > 0 && answer == answers(asked - 1)
      requires connected == conn.Some? == !answer.NoConnection? && stand.phase == Told(answer, ipv6) && !stand.stopped
      modifies this`conn, this`redirect, this`current, this`cloudOnline, this`trace, this`stand
      ensures Settled(r, answer) && stand == old(stand).(live := stand.live)
      ensures current == if Redirects(answer) then Some(Redirect) else old(current)
      ensures if old(Spoiled(answer)) then Get(current.value).allowInsecure == -1 && stand.current.None?
              else Pointed() && (r.WaitFail? ==> Get(current.value) == old(Get(current.value)))
    {
      r := WaitFail;
      if connected {
        if !answer.NotOk? {
          r := WaitConnectionReady(answer, asked - 1);
          if r.WaitSuccess? {
            return;
          }
        }
      }
      if connected {
        CloseAndUnref(conn);
        conn := None;
      }
    }

    /** One attempt at the current server, and the wait for its handshake; nothing is open after a failure. */
    method TryOnce(ipv6: bool) returns (r: Waited)
      requires Valid() && Pointed() && conn.None? && !stand.stopped && MayTry(stand, ipv6)
      modifies this`conn, this`handedOut, this`redirect, this`current, this`cloudOnline
      modifies this`trace, this`stand, this`asked
      ensures asked == old(asked) + 1 && Settled(r, answers(old(asked)))
      ensures stand.phase == Told(answers(old(asked)), ipv6) && stand.tries == old(stand).tries + [ipv6]
      ensures stand.delays == old(stand).delays && !stand.stopped
      ensures current == if Redirects(answers(old(asked))) then Some(Redirect) else old(current)
      ensures if old(Spoiled(answers(asked))) then Get(current.value).allowInsecure == -1 && stand.current.None?
              else Pointed() && (r.WaitFail? ==> Get(current.value) == old(Get(current.value)))
    {
      var connected := NopollConnect(ipv6);
      var answer := Hear();
      r := Settle(connected, answer, ipv6);
    }

    /** A second attempt over IPv4: no version is forced, the server is secure and still there, and the first failed. */
    ghost predicate TriesAgain(first: Answer)
      reads this`current, this`defaults, this`jwt, this`redirect
      requires current.Some?
    {
      flags == 0 && Fails(first) && Get(current.value).allowInsecure == 0 && !Spoiled(first)
    }

    /** Tries the current server: at most twice, and the second time only over IPv4 at a secure server. */
    method ConnectAndWait() returns (r: Waited)
      requires Valid() && Pointed() && conn.None? && !stand.stopped && ToFollowUp(stand.phase)
      modifies this`conn, this`handedOut, this`redirect, this`current, this`cloudOnline
      modifies this`trace, this`stand, this`asked
      ensures Valid() && (r.WaitSuccess? <==> conn.Some?) && current.Some?
      ensures asked == old(asked) + if old(TriesAgain(answers(asked))) then 2 else 1
      ensures stand.tries == old(stand).tries + if old(TriesAgain(answers(asked))) then [true, false]
                                                   else [(flags / FLAGS_IPV4_ONLY) % 2 == 0]
      ensures stand.phase.Told? && stand.phase.answer == answers(asked - 1)
      ensures r.WaitSuccess? <==> stand.phase.answer.Ready?
      ensures r.WaitActionRetry? <==> AsksRetry(stand.phase.answer)
      ensures stand.delays == old(stand).delays && !stand.stopped
      ensures if r.WaitFail? then !FallbackDue(stand) else Pointed()
    {
      var ipv6 := true;
      if (flags / FLAGS_IPV4_ONLY) % 2 == 1 {
        ipv6 := false;
      }
      while true
        invariant Valid() && Pointed() && conn.None? && !stand.stopped && MayTry(stand, ipv6)
        invariant stand.delays == old(stand).delays
        invariant current == old(current) && Get(current.value) == old(Get(current.value))
        invariant if asked == old(asked) then
                    ipv6 == ((flags / FLAGS_IPV4_ONLY) % 2 == 0) && stand.tries == old(stand).tries
                  else
                    asked == old(asked) + 1 && !ipv6 && old(TriesAgain(answers(asked))) &&
                    stand.tries == old(stand).tries + [true]
        decreases ipv6
      {
        r := TryOnce(ipv6);
        if r.WaitSuccess? || r.WaitActionRetry? {
          return;
        }
        if flags == 0 && Get(current.value).allowInsecure == 0 && ipv6 {
          ipv6 := false;
          continue;
        }
        return WaitFail;
      }
    }

    method InterfaceDown() returns (down: bool)
      modifies this`looks
      ensures looks == old(looks) + 1 && down == downs(old(looks))
    {
      down := downs(looks);
      looks := looks + 1;
    }

    /** Waits until a look finds the interface up; an error of the wait or shutdown ends the waiting. */
    method AwaitInterface() returns (r: IfUp)
      modifies this`shutdown, this`patience, this`looks
      ensures (old(shutdown) ==> shutdown) && patience <= old(patience) && looks > old(looks)
      ensures r.UpCut? ==> patience == 0
      ensures r.Up? <==> !downs(looks - 1)
    {
      while true
        invariant (old(shutdown) ==> shutdown) && patience <= old(patience) && looks >= old(looks)
        decreases patience
      {
        var down := InterfaceDown();
        if !down {
          return Up;
        }
        if patience == 0 {
          return UpCut;
        }
        patience := patience - 1;
        var error: bool := *;
        var stop := Poll();
        if error || stop {
          return WaitError;
        }
      }
    }

    /** Drops the connection and waits until the interface is up again. */
    method WaitWhileInterfaceDown() returns (r: IfUp)
      requires Valid() && ((Failed(stand.phase) && !FallbackDue(stand)) || Rested(stand.phase))
      modifies this`conn, this`cloudOnline, this`shutdown, this`patience, this`looks, this`trace, this`stand
      ensures Valid() && conn.None? && (old(shutdown) ==> shutdown) && patience <= old(patience)
      ensures stand == old(stand).(live := {}, phase := Paused)
      ensures r.UpCut? ==> patience == 0
      ensures looks > old(looks) && (r.Up? <==> !downs(looks - 1))
    {
      CloseAndUnref(conn);
      conn := None;
      Log(Down);
      r := AwaitInterface();
    }

    method BackoffDelay(timer: BackoffTimer)
      requires Valid() && timer.Valid() && Failed(stand.phase) && !FallbackDue(stand)
      modifies timer, this`shutdown, this`trace, this`stand
      ensures Valid() && timer.Valid() && timer.rounds == old(timer.rounds) + 1 && (old(shutdown) ==> shutdown)
      ensures trace == old(trace) + [Delayed] && stand == After(old(stand), Delayed)
    {
      Log(Delayed);
      var now: Timespec, random1: nat, random2: nat := *, *, *;
      var _ := timer.CalcRandomExpiration(random1, random2 % 0x8000_0000, if Normal(now) then now else Timespec(0, 0));
      var _ := Poll();
    }

    /** Follows redirects and repeats refused requests, until connected, failed, stopped or cut. */
    method FollowUp() returns (r: Followed)
      requires Valid() && Pointed() && conn.None? && stand.phase.Choosing?
      modifies this`conn, this`handedOut, this`redirect, this`current, this`cloudOnline
      modifies this`trace, this`stand, this`asked
      modifies this`shutdown, this`patience
      ensures Valid() && patience <= old(patience) && (old(shutdown) ==> shutdown) && current.Some?
      ensures stand.delays == old(stand).delays && (r.Online? <==> conn.Some?)
      ensures r.Online? || r.Lost? ==> !old(shutdown) && patience < old(patience) && asked > old(asked)
      ensures r.Online? ==> stand.phase.Told? && stand.phase.answer.Ready?
      ensures r.Lost? ==> Failed(stand.phase) && !FallbackDue(stand)
      ensures r.Halted? ==> shutdown && stand.phase.Outside?
      ensures r.FollowCut? ==> patience == 0
    {
      while true
        invariant Ready()
        invariant patience <= old(patience) && (old(shutdown) ==> shutdown) && asked >= old(asked)
        invariant stand.delays == old(stand).delays
        decreases patience
      {
        var stop := Poll();
        if stop {
          Log(Stopped);
          return Halted;
        }
        if patience == 0 {
          return FollowCut;
        }
        patience := patience - 1;
        var waited := ConnectAndWait();
        if waited.WaitSuccess? {
          return Online;
        }
        if waited.WaitActionRetry? {
          continue;
        }
        return Lost;
      }
    }

    /** After a failure: waits for the interface when it is down, and else for the backoff. */
    method WaitAfterFailure(timer: BackoffTimer) returns (r: Tried)
      requires Valid() && conn.None? && Failed(stand.phase) && !FallbackDue(stand) && timer.Valid()
      modifies this`conn, this`cloudOnline, this`shutdown, this`patience, this`looks, this`trace, this`stand, timer
      ensures Valid() && timer.Valid() && conn.None? && patience <= old(patience) && (old(shutdown) ==> shutdown)
      ensures (r.GaveUp? || (r.TriedCut? && patience == 0)) && stand.phase.Paused?
      ensures timer.rounds == old(timer.rounds) + if downs(old(looks)) then 0 else 1
      ensures stand.delays == old(stand).delays + if downs(old(looks)) then 0 else 1
    {
      var interfaceDown := InterfaceDown();
      if interfaceDown {
        var up := WaitWhileInterfaceDown();
        r := if up.UpCut? then TriedCut else GaveUp;
      } else {
        BackoffDelay(timer);
        r := GaveUp;
      }
    }

    /**
     Follows up until connected, or fails once and waits. Before shutdown it gives up only after a wait, and a wait
     comes only after the last answer was a failure.
     */
    method KeepTryingToConnect(timer: BackoffTimer) returns (r: Tried)
      requires Valid() && Pointed() && conn.None? && stand.phase.Choosing? && timer.Valid()
      modifies this`conn, this`handedOut, this`redirect, this`current, this`cloudOnline
      modifies this`trace, this`stand, this`asked
      modifies this`shutdown, this`patience, this`looks, timer
      ensures Valid() && timer.Valid() && patience <= old(patience) && (old(shutdown) ==> shutdown) && current.Some?
      ensures r.Connected? <==> conn.Some?
      ensures old(shutdown) ==> !r.Connected?
      ensures r.GaveUp? ==> shutdown || patience < old(patience)
      ensures r.TriedCut? ==> patience == 0
      ensures r.Connected? ==> asked > old(asked) && answers(asked - 1).Ready?
      ensures !r.TriedCut? ==> Rested(stand.phase)
      ensures r.GaveUp? && !shutdown ==>
                asked > old(asked) && Fails(answers(asked - 1)) && stand.phase.Paused?
      // a failure costs one backoff wait, unless the interface is found down
      ensures timer.rounds == old(timer.rounds) + (stand.delays - old(stand).delays)
      ensures r.GaveUp? && !shutdown ==> stand.delays == old(stand).delays + if downs(old(looks)) then 0 else 1
      ensures stand.delays <= old(stand).delays + 1
    {
      var end := FollowUp();
      if stand.phase.Told? {
        ToldIsLast(trace);
      }
      if end.Lost? {
        r := WaitAfterFailure(timer);
      } else {
        r := if end.Online? then Connected else if end.Halted? then GaveUp else TriedCut;
      }
    }

    /** One round: the redirect server is forgotten after it, and the servers are looked up again if there is no JWT. */
    method Round(timer: BackoffTimer) returns (tried: Tried)
      requires Running() && conn.None? && timer.Valid()
      modifies this`conn, this`handedOut, this`defaults, this`jwt, this`redirect, this`current, this`cloudOnline
      modifies this`trace, this`stand, this`shutdown, this`patience, this`asked, this`lookups, this`looks, timer
      ensures if tried.TriedCut? then Valid() && Listed() && patience == 0 else Running()
      ensures timer.Valid() && (old(shutdown) ==> shutdown && !tried.Connected?)
      ensures patience <= old(patience) && (tried.GaveUp? ==> shutdown || patience < old(patience))
      ensures tried.Connected? <==> conn.Some?
      ensures tried.GaveUp? && !shutdown ==> asked > old(asked) && stand.phase.Paused?
      ensures current.Some?
      ensures timer.rounds <= old(timer.rounds) + 1
    {
      BeginRound();
      tried := KeepTryingToConnect(timer);
      if !tried.TriedCut? {
        EndRound(tried.Connected?);
      }
    }

    /** A round begins at the JWT's server when there is one and else at the default. */
    method BeginRound()
      requires Valid() && conn.None? && redirect.addr.None? && defaults.addr.Some? && Rested(stand.phase)
      modifies this`current, this`trace, this`stand
      ensures Valid() && Pointed() && stand.phase.Choosing? && stand.delays == old(stand).delays
      ensures var server := if jwt.addr.Some? then Choice(Jwt, jwt) else Choice(Default, defaults);
              trace == old(trace) + [RoundStart(server, jwt.addr.Some?, false, flags != 0)]
    {
      SetCurrentServer();
      Log(RoundStart(Choice(current.value, Get(current.value)), jwt.addr.Some?, redirect.addr.Some?, flags != 0));
    }

    method EndRound(connected: bool)
      requires Parses(named) && Listed() && defaults.addr.Some?
      modifies this`defaults, this`jwt, this`redirect, this`lookups
      ensures Listed() && redirect.addr.None? && defaults == old(defaults) && defaults.addr.Some?
      // without a JWT after a failure, the next lookup decides whether there is one
      ensures connected || old(jwt).addr.Some? ==> jwt == old(jwt)
      ensures !connected && old(jwt).addr.None? ==> (jwt.addr.Some? <==> acquireJwt && Gives(old(lookups)))
    {
      redirect := redirect.Freed();
      if !connected && jwt.addr.None? {
        var found := FindServers();
        if found.FindInvalidDefault? {
          assert false;    // where the shutdown flag would be set: the configured URL was accepted before
        }
      }
    }

    /** Rounds until connected or shut down; `look` is whether the first look at the flag already found it set. */
    method RunRounds(timer: BackoffTimer) returns (cut: bool, ghost look: bool)
      requires Running() && conn.None? && current.None? && timer.Valid()
      modifies this`conn, this`handedOut, this`defaults, this`jwt, this`redirect, this`current, this`cloudOnline
      modifies this`trace, this`stand, this`shutdown, this`patience, this`asked, this`lookups, this`looks, timer
      ensures (old(shutdown) ==> look) && patience <= old(patience)
      ensures if cut then Ended() && patience == 0 else Running() && (conn.Some? || shutdown)
      ensures look <==> !cut && current.None?
      ensures look ==> shutdown && conn.None? && trace == old(trace)
    {
      var stop := Poll();
      look := stop;
      while !stop
        invariant Running() && conn.None? && timer.Valid()
        invariant stop == shutdown && (old(shutdown) ==> look) && patience <= old(patience)
        invariant if current.None? then trace == old(trace) && look == stop else !look
        decreases patience, !stop
      {
        var tried := Round(timer);
        if tried.TriedCut? {
          return true, false;
        }
        if tried.Connected? {
          break;
        }
        stop := Poll();
      }
      return false, look;
    }

    /** Looks the servers up unless they are known. */
    method KnowServers() returns (known: bool)
      requires Valid() && Listed() && conn.None? && redirect.addr.None? && Rested(stand.phase)
      modifies this`defaults, this`jwt, this`redirect, this`lookups
      ensures known <==> old(defaults).addr.Some? || named(webpaUrl).Some?
      ensures if known then Running() else Ended()
    {
      if defaults.addr.None? {
        var found := FindServers();
        return !found.FindInvalidDefault?;
      }
      return true;
    }

    method GoOnline()
      requires Running() && (conn.Some? || shutdown)
      modifies this`cloudOnline, this`closeRetry
      ensures Running() && cloudOnline && !closeRetry
    {
      cloudOnline := true;
      closeRetry := false;
    }

    /**
     Connects, one round after another, each beginning at the JWT's server when there is one and else at the default.
     When the first look at the shutdown flag finds it set, the program goes on to read the flag of a server it never
     chose: NoServer. `look` is what that first look found.
     */
    method CreateNopollConnection(maxRetry: int) returns (r: Created, ghost look: bool)
      requires Valid() && Listed() && conn.None? && redirect.addr.None? && Rested(stand.phase)
      modifies this
      ensures patience <= old(patience) && if r.Done? then Running() else Ended()
      ensures r.NoDefault? <==> old(defaults).addr.None? && named(webpaUrl).None?
      ensures r.CreatedCut? ==> patience == 0
      ensures r.Done? ==> cloudOnline && !closeRetry && (conn.Some? || shutdown)
      ensures r.NoServer? <==> look && !r.NoDefault?
      ensures (old(shutdown) ==> look) && (look ==> shutdown)
      ensures r.NoServer? ==> trace == old(trace)
    {
      r, look := NoDefault, shutdown;
      var timer := new BackoffTimer(maxRetry);
      current := None;
      var known := KnowServers();
      if known {
        var cut;
        cut, look := RunRounds(timer);
        r := if cut then CreatedCut else if current.None? then NoServer else Done;
        if r.Done? {
          GoOnline();
        }
      }
    }

    method Reopen(maxRetry: int) returns (r: Created)
      requires Running()
      modifies this
      ensures !r.NoDefault? && patience <= old(patience) && (r.CreatedCut? ==> patience == 0)
      ensures if r.Done? then Running() else Ended()
    {
      CloseAndUnref(conn);
      conn := None;
      ghost var look;
      r, look := CreateNopollConnection(maxRetry);
    }

    /** While the interface is down the main loop waits; an error or shutdown ends it. */
    method HeedInterface() returns (r: Created, leave: bool)
      requires Running()
      modifies this`conn, this`cloudOnline, this`shutdown, this`patience, this`looks, this`trace, this`stand
      ensures (r.Done? || (r.CreatedCut? && patience == 0 && leave)) && patience <= old(patience)
      ensures if r.Done? then Running() else Ended()
    {
      r, leave := Done, false;
      var interfaceDown := InterfaceDown();
      if interfaceDown {
        var up := WaitWhileInterfaceDown();
        leave := !up.Up?;
        if up.UpCut? {
          r := CreatedCut;
        }
      }
    }

    /** The condition of the main loop: no new connection asked for, and no shutdown. */
    method LookAround() returns (leave: bool)
      requires Running()
      modifies this`closeRetry, this`shutdown
      ensures Running() && leave == (closeRetry || shutdown)
      ensures (old(closeRetry) ==> closeRetry) && (old(shutdown) ==> shutdown)
    {
      var again: bool := *;    // asked for by another thread in the meantime
      closeRetry := closeRetry || again;
      var stop := Poll();
      leave := closeRetry || stop;
    }

    /** One turn of the main loop; `leave` ends it. */
    method MainRound(maxRetry: int) returns (r: Created, leave: bool)
      requires Running()
      modifies this
      ensures !r.NoDefault? && patience <= old(patience)
      ensures if r.Done? then Running() else Ended()
      ensures r.CreatedCut? ==> patience == 0
    {
      // a poll of the network, a missed ping or a request from the cloud may ask for a new connection
      var wanted: bool := *;
      closeRetry := closeRetry || wanted;
      r, leave := HeedInterface();
      if leave {
        return;
      }
      if closeRetry {
        r := Reopen(maxRetry);
        if !r.Done? {
          leave := true;
          return;
        }
      }
      leave := LookAround();
    }

    /**
     The main loop, from the first connection to the last close. The trace of the whole run is sound, its answers are
     the network's, and every handle the run opened has been closed when it ends.
     */
    method CreateSocketConnection(maxRetry: int) returns (r: Created)
      requires Valid() && Listed() && conn.None? && redirect.addr.None? && Rested(stand.phase)
      modifies this
      ensures Recorded(trace, stand, answers) && |stand.answers| == asked
      ensures if r.CreatedCut? then patience == 0 else stand.live == {}
      ensures r.NoDefault? <==> old(defaults).addr.None? && named(webpaUrl).None?
    {
      ghost var look;
      r, look := CreateNopollConnection(maxRetry);
      var leave := false;
      while r.Done? && !leave
        invariant if r.Done? then Running() else Ended()
        invariant r.CreatedCut? ==> patience == 0
        invariant r.NoDefault? <==> old(defaults).addr.None? && named(webpaUrl).None?
        decreases patience, !leave, r.Done?
      {
        if patience == 0 {
          return CreatedCut;
        }
        patience := patience - 1;
        r, leave := MainRound(maxRetry);
      }
      CloseAndUnref(conn);
    }
  }

  // ---------- redirects over a whole run ----------

  /** After a redirect whose URL names a server, the next attempt is at that server, in the same round. */
  lemma RedirectIsFollowed(t: seq<Event>, answers: nat -> Answer, named: string -> Option<Server>, i: nat, j: nat,
                           url: string)
    requires Sound(t) && Given(StandOf(t).answers, answers) && Honest(answers, named)
    requires i < j < |t| && t[i].Answered? && t[i].answer.Refused? && Quiet(t, i, j)
    requires t[i].answer.status == 307 || t[i].answer.status == 302 || t[i].answer.status == 303
    requires t[i].answer.location == "Redirect:" + url && named(url).Some?
    ensures !t[j].Delayed? && !t[j].Down? && !t[j].RoundStart?
    ensures t[j].Attempt? ==> t[j].tried == Choice(Redirect, named(url).value)
  {
    var k := HeardWasGiven(t, answers, i);
    assert HonestAt(answers, named, k);
    TargetStrips(url);
    RetryIsFollowedUp(t, i, j);
  }

  /** The address, port and security that a URL names. */
  lemma NamedIsServer(named: string -> Option<Server>, url: string)
    requires Parses(named)
    ensures var s := WebpaUrl.ServerOf(url);
            named(url) == if s.None? then None
                          else Some(Server(Some(s.value.addr), s.value.port, if s.value.insecure then 1 else 0))
  {
    assert ParsesAt(named, url);
  }
}
