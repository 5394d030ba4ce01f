/** The two-way X11 proxies: io_x11.c. */
module X11Relay {
  import opened Bytes
  import opened Kernel
  import opened Select
  import opened IoLoop
  import opened AuthData

  /** What the server is to receive of a client's octets: the first chunk with its cookie replaced, the rest as it came. */
  ghost function Filtered(s: seq<byte>, first: nat, saved: seq<byte>, fake: seq<byte>): seq<byte>
    requires first <= |s|
  {
    Rewrite(s[..first], saved, fake) + s[first..]
  }

  lemma FilteredGrows(s: seq<byte>, first: nat, saved: seq<byte>, fake: seq<byte>, t: seq<byte>)
    requires first <= |s|
    ensures Filtered(s + t, first, saved, fake) == Filtered(s, first, saved, fake) + t
  {
    assert (s + t)[..first] == s[..first];
    assert (s + t)[first..] == s[first..] + t;
  }

  lemma FirstChunk(chunk: seq<byte>, saved: seq<byte>, fake: seq<byte>)
    ensures Filtered([], 0, saved, fake) == []
    ensures Filtered(chunk, |chunk|, saved, fake) == Rewrite(chunk, saved, fake)
  {
    hide Rewrite;
    TooShort([], saved, fake);
    assert chunk[..|chunk|] == chunk && chunk[|chunk|..] == [];
    var none: seq<byte> := [];
    assert none[..0] == [] && none[0..] == [];
  }

  /** One more chunk from a client all of whose earlier octets, if any, have gone out. */
  lemma ChunkStep(read: seq<byte>, first: nat, sent: seq<byte>, chunk: seq<byte>, saved: seq<byte>, fake: seq<byte>)
    requires first <= |read| && (first > 0 <==> read != []) && |saved| == |fake|
    requires Filtered(read, first, saved, fake) == sent + []
    ensures |Rewrite(chunk, saved, fake)| == |chunk|
    ensures Filtered(read + chunk, if first > 0 then first else |chunk|, saved, fake)
         == sent + (if first > 0 then chunk else Rewrite(chunk, saved, fake))
  {
    hide Rewrite;
    RewriteFrame(chunk, saved, fake);
    if first > 0 {
      FilteredGrows(read, first, saved, fake, chunk);
    } else {
      FirstChunk(chunk, saved, fake);
      assert read + chunk == chunk && sent == [];
    }
  }

  /**
   When the fake cookie reaches the server: exactly when the client sends it
   in a packet that the first chunk does not hold to the end.
   */
  lemma FakePassesExactly(s: seq<byte>, first: nat, saved: seq<byte>, fake: seq<byte>)
    requires first <= |s| && |saved| == |fake| && saved != fake
    ensures Carries(Filtered(s, first, saved, fake), fake) <==> Carries(s, fake) && first < Extent(Parse(s).value)
  {
    hide Parse, Unparse;
    var chunk := s[..first];
    assert s == chunk + s[first..];
    ParseOfPrefix(s, first);
    if Carries(chunk, fake) {
      WholeRewrite(s, first, saved, fake);
      RewriteHidesFake(s, saved, fake);
    } else {
      assert Filtered(s, first, saved, fake) == s;
    }
  }

  /** If the first chunk holds the packet to the end, the server gets the rewrite of all the client sent. */
  lemma WholeRewrite(s: seq<byte>, first: nat, saved: seq<byte>, fake: seq<byte>)
    requires first <= |s| && |saved| == |fake| && Carries(s[..first], fake)
    ensures Carries(s, fake) && Filtered(s, first, saved, fake) == Rewrite(s, saved, fake)
  {
    hide Parse;
    var chunk := s[..first];
    ParseOfPrefix(s, first);
    var whole, part := Parse(s).value, Parse(chunk).value;
    UnparseParse(s);
    assert whole.rest == part.rest + s[first..] by { RestOfPrefix(s, first); }
    assert Unparse(whole.(data := saved)) == Unparse(part.(data := saved)) + s[first..];
  }

  lemma RestOfPrefix(s: seq<byte>, first: nat)
    requires first <= |s| && Parse(s).Some? && Extent(Parse(s).value) <= first
    ensures Parse(s).value.rest == s[Extent(Parse(s).value)..first] + s[first..]
  {
    ParseCuts(s);
  }

  /** For one, any packet whose first twelve octets are read by themselves. */
  lemma SplitSetupPassesFake(s: Setup, saved: seq<byte>)
    requires WellFormed(s) && |s.data| == |saved| && saved != s.data
    ensures var sent := Unparse(s);
            |sent| >= FIXED_PART && Carries(Filtered(sent, FIXED_PART, saved, s.data), s.data)
  {
    ParseUnparse(s);
    FakePassesExactly(Unparse(s), FIXED_PART, saved, s.data);
  }

  /** Moving octets from the pending ones to the written ones keeps their concatenation. */
  lemma SendStep(read: seq<byte>, written: seq<byte>, pending: seq<byte>, n: nat)
    requires read == written + pending && n <= |pending|
    ensures read == written + pending[..n] + pending[n..]
  {
    assert pending == pending[..n] + pending[n..];
  }

  /** Write out the start of a buffer and move the rest down; shared by both directions here and by the terminal input of parent.c. */
  method Drain(k: System, fd: int, buf: array<byte>, avail: nat) returns (n: int)
    requires k.Valid() && fd in k.table && 0 < avail <= buf.Length
    modifies k`sent, k`console, k`broken, buf
    ensures k.Valid() && -1 <= n <= avail
    ensures n <= 0 ==> k.sent == old(k.sent) && k.console == old(k.console) && buf[..] == old(buf[..])
    ensures n > 0 ==> k.sent == old(k.sent)[k.table[fd] := old(k.sent[k.table[fd]]) + old(buf[..n])]
    ensures n > 0 ==> buf[..avail - n] == old(buf[n..avail])
    ensures k.console == old(k.console) + (if n > 0 && (fd == STDOUT || fd == STDERR) then n else 0)
    ensures k.broken <==> old(k.broken) || (n < avail && (fd == STDOUT || fd == STDERR))
  {
    n := WriteLoop(k, fd, buf, avail);
    if n <= 0 {
      return;
    }
    if n < avail {
      forall i | 0 <= i < avail - n {
        buf[i] := buf[i + n];
      }
    }
  }

  /** Octets moved on a connection so far, and pending. */
  datatype Meter = Meter(
    fromServer: nat, fromClient: nat, toServer: nat, toClient: nat,
    masterAvail: nat, slaveAvail: nat)

  class IoX11 {
    const masterFd: int
    const slaveFd: int
    var masterAvail: nat
    var slaveAvail: nat
    var authenticated: bool
    const masterBuf: array<byte>
    const slaveBuf: array<byte>

    ghost const master: File
    ghost const slave: File
    ghost const saved: seq<byte>
    ghost const fake: seq<byte>
    /** Length of the first chunk read from the client. */
    ghost var firstLen: nat

    /** Both descriptors are open on this connection's files. */
    ghost predicate Attached(k: System)
      reads k`table
    {
      && masterFd in k.table && k.table[masterFd] == master
      && slaveFd in k.table && k.table[slaveFd] == slave
    }

    ghost predicate Sized()
      reads this
    {
      && masterBuf.Length == slaveBuf.Length == BUFSIZ && masterBuf != slaveBuf
      && masterAvail <= BUFSIZ && slaveAvail <= BUFSIZ && |saved| == |fake|
    }

    /** The files are this connection's own. */
    ghost predicate Owns(k: System)
      reads k`received, k`sent, k`owner
    {
      && master != slave && {master, slave} <= k.received.Keys && {master, slave} <= k.sent.Keys && {master, slave} <= k.owner.Keys
      && k.owner[master] == k.owner[slave] == Connection(slave)
    }

    /**
     In each direction what was read is what was written followed by what is
     pending; towards the server, the first chunk counts as rewritten.
     */
    ghost predicate Relayed(k: System)
      reads this, masterBuf, slaveBuf, k`received, k`sent, k`owner
    {
      && Sized() && Owns(k)
      && k.received[master] == k.sent[slave] + masterBuf[..masterAvail]
      && firstLen <= |k.received[slave]|
      && (authenticated <==> firstLen > 0) && (authenticated <==> k.received[slave] != [])
      && Filtered(k.received[slave], firstLen, saved, fake) == k.sent[master] + slaveBuf[..slaveAvail]
    }

    /**
     What the server has been and is about to be sent carries the fake cookie
     exactly if the client sent it in a packet longer than its first chunk.
     */
    lemma ServerSeesFake(k: System)
      requires Relayed(k) && saved != fake
      ensures Carries(k.sent[master] + slaveBuf[..slaveAvail], fake) <==>
              Carries(k.received[slave], fake) && firstLen < Extent(Parse(k.received[slave]).value)
    {
      hide Parse, Filtered;
      FakePassesExactly(k.received[slave], firstLen, saved, fake);
    }

    /** Every file but this connection's two has the histories it had. */
    twostate predicate OthersKept(k: System)
      reads k
    {
      && k.received.Keys == old(k.received.Keys) && k.sent.Keys == old(k.sent.Keys)
      && (forall f | f in old(k.received) && f != master && f != slave :: k.received[f] == old(k.received[f]))
      && (forall f | f in old(k.sent) && f != master && f != slave :: k.sent[f] == old(k.sent[f]))
    }

    /** Where this connection waits to read, and to write. */
    ghost predicate WantsRead(fd: int)
      reads this
    {
      (slaveAvail == 0 && fd == slaveFd) || (masterAvail == 0 && fd == masterFd)
    }

    ghost predicate WantsWrite(fd: int)
      reads this
    {
      (slaveAvail > 0 && fd == masterFd) || (masterAvail > 0 && fd == slaveFd)
    }

    ghost predicate Polled(reading: set<int>, writing: set<int>)
      reads this
    {
      forall fd | fd >= 0 :: (WantsRead(fd) ==> fd in reading) && (WantsWrite(fd) ==> fd in writing)
    }

    /** The body of the loop of `fds_add_x11`. */
    method AddTo(k: System, sel: FdSets)
      requires k.Valid() && Attached(k) && sel.Registrable(k)
      modifies sel`readFds, sel`writeFds, sel`maxFd
      ensures sel.Registrable(k) && sel.maxFd >= old(sel.maxFd) && Polled(sel.readFds, sel.writeFds)
      ensures sel.readFds >= old(sel.readFds) && sel.writeFds >= old(sel.writeFds)
      ensures forall fd | fd in sel.readFds && fd !in old(sel.readFds) :: WantsRead(fd)
      ensures forall fd | fd in sel.writeFds && fd !in old(sel.writeFds) :: WantsWrite(fd)
    {
      if slaveAvail > 0 {
        sel.AddWrite(masterFd);
      } else {
        sel.AddRead(slaveFd);
      }
      if masterAvail > 0 {
        sel.AddWrite(slaveFd);
      } else {
        sel.AddRead(masterFd);
      }
    }

    constructor (k: System, masterFd: int, slaveFd: int, ghost saved: seq<byte>, ghost fake: seq<byte>)
      requires k.Valid() && masterFd in k.table && slaveFd in k.table && |saved| == |fake|
      requires var m, s := k.table[masterFd], k.table[slaveFd];
               m != s && k.owner[m] == k.owner[s] == Connection(s)
               && k.received[m] == k.sent[m] == k.received[s] == k.sent[s] == []
      ensures Relayed(k) && Attached(k) && this.saved == saved && this.fake == fake
      ensures this.masterFd == masterFd && this.slaveFd == slaveFd
      ensures masterAvail == slaveAvail == 0 && !authenticated
      ensures fresh(masterBuf) && fresh(slaveBuf)
    {
      this.masterFd, this.slaveFd := masterFd, slaveFd;
      masterAvail, slaveAvail, authenticated := 0, 0, false;
      masterBuf := new byte[BUFSIZ];
      slaveBuf := new byte[BUFSIZ];
      master, slave := k.table[masterFd], k.table[slaveFd];
      this.saved, this.fake := saved, fake;
      firstLen := 0;
    }

    lemma NotStdio(k: System)
      requires k.Valid() && Owns(k) && Attached(k)
      ensures masterFd > 2 && slaveFd > 2
    {
    }

    /** Pending octets from the server go to the client. */
    method SendToClient(k: System) returns (ok: bool)
      requires k.Valid() && Relayed(k) && Attached(k) && masterAvail > 0
      modifies k`sent, k`console, k`broken, this`masterAvail, masterBuf
      ensures k.Valid() && Relayed(k) && OthersKept(k) && k.console == old(k.console) && k.broken == old(k.broken)
      ensures if ok then masterAvail < old(masterAvail) else masterAvail == old(masterAvail)
      ensures k.sent[master] == old(k.sent[master])
      ensures |k.sent[slave]| - |old(k.sent[slave])| == old(masterAvail) - masterAvail
    {
      hide Rewrite, Filtered, System.Valid;
      NotStdio(k);
      ghost var was := masterBuf[..masterAvail];
      var n := Drain(k, slaveFd, masterBuf, masterAvail);
      ok := n > 0;
      if ok {
        assert was[..n] == old(masterBuf[..n]) && was[n..] == old(masterBuf[n..masterAvail]);
        SendStep(k.received[master], old(k.sent[slave]), was, n);
        masterAvail := masterAvail - n;
        assert masterBuf[..masterAvail] == was[n..];
      } else {
        assert masterBuf[..masterAvail] == was;
      }
    }

    /** Pending octets from the client go to the server. */
    method SendToServer(k: System) returns (ok: bool)
      requires k.Valid() && Relayed(k) && Attached(k) && slaveAvail > 0
      modifies k`sent, k`console, k`broken, this`slaveAvail, slaveBuf
      ensures k.Valid() && Relayed(k) && OthersKept(k) && k.console == old(k.console) && k.broken == old(k.broken)
      ensures if ok then slaveAvail < old(slaveAvail) else slaveAvail == old(slaveAvail)
      ensures k.sent[slave] == old(k.sent[slave])
      ensures |k.sent[master]| - |old(k.sent[master])| == old(slaveAvail) - slaveAvail
    {
      hide Rewrite, Filtered, System.Valid;
      NotStdio(k);
      ghost var was := slaveBuf[..slaveAvail];
      var n := Drain(k, masterFd, slaveBuf, slaveAvail);
      ok := n > 0;
      if ok {
        assert was[..n] == old(slaveBuf[..n]) && was[n..] == old(slaveBuf[n..slaveAvail]);
        SendStep(Filtered(k.received[slave], firstLen, saved, fake), old(k.sent[master]), was, n);
        slaveAvail := slaveAvail - n;
        assert slaveBuf[..slaveAvail] == was[n..];
      } else {
        assert slaveBuf[..slaveAvail] == was;
      }
    }

    /** Read from the server, only ever into an empty buffer. */
    method ReadServer(k: System) returns (ok: bool)
      requires k.Valid() && Relayed(k) && Attached(k) && masterAvail == 0
      modifies k`received, this`masterAvail, masterBuf
      ensures k.Valid() && Relayed(k) && OthersKept(k)
      ensures if ok then masterAvail > 0 else masterAvail == 0
      ensures k.received[slave] == old(k.received[slave])
      ensures |k.received[master]| == |old(k.received[master])| + masterAvail
    {
      hide Rewrite, Filtered;
      var n := k.Read(masterFd, masterBuf, masterBuf.Length);
      ok := n > 0;
      if ok {
        masterAvail := n;
      }
    }

    /** Read from the client, only ever into an empty buffer; the first chunk has its cookie checked and replaced. */
    method ReadClient(k: System, saved: seq<byte>, fake: seq<byte>) returns (ok: bool)
      requires k.Valid() && Relayed(k) && Attached(k) && slaveAvail == 0
      requires saved == this.saved && fake == this.fake
      modifies k`received, this`slaveAvail, this`authenticated, this`firstLen, slaveBuf
      ensures k.Valid() && Relayed(k) && OthersKept(k)
      ensures if ok then slaveAvail > 0 && authenticated else slaveAvail == 0
      ensures k.received[master] == old(k.received[master])
      ensures |k.received[slave]| == |old(k.received[slave])| + slaveAvail
      ensures firstLen == if ok && !old(authenticated) then slaveAvail else old(firstLen)
    {
      hide Rewrite, Filtered;
      var n := k.Read(slaveFd, slaveBuf, slaveBuf.Length);
      ok := n > 0;
      if ok {
        slaveAvail := n;
        ghost var chunk := slaveBuf[..n];
        ChunkStep(old(k.received[slave]), firstLen, k.sent[master], chunk, saved, fake);
        if !authenticated {
          firstLen := n;
        }
        CheckAuthData(saved, fake);
      }
    }

    /** `io_check_auth_data`: only the first chunk is looked at. */
    method CheckAuthData(saved: seq<byte>, fake: seq<byte>)
      requires |saved| == |fake| && slaveAvail <= slaveBuf.Length
      modifies this`authenticated, slaveBuf
      ensures authenticated
      ensures slaveBuf[..slaveAvail] ==
              if old(authenticated) then old(slaveBuf[..slaveAvail]) else Rewrite(old(slaveBuf[..slaveAvail]), saved, fake)
    {
      hide Rewrite;
      if authenticated {
        return;
      }
      authenticated := true;
      RewriteFrame(slaveBuf[..slaveAvail], saved, fake);
      CheckSetupPacket(slaveBuf, slaveAvail, saved, fake);
      assert slaveBuf[..slaveAvail] == slaveBuf[..][..slaveAvail];
    }

    /** The server-to-client half of a round. */
    method FromServer(k: System, sel: FdSets) returns (alive: bool)
      requires k.Valid() && Relayed(k) && Attached(k) && sel.Fresh(k, masterFd) && sel.Fresh(k, slaveFd)
      modifies k`sent, k`received, k`console, k`broken, this`masterAvail, masterBuf
      ensures k.Valid() && Relayed(k) && OthersKept(k) && k.console == old(k.console) && k.broken == old(k.broken)
      ensures k.sent[master] == old(k.sent[master]) && k.received[slave] == old(k.received[slave])
      ensures |k.sent[slave]| > |old(k.sent[slave])| ==> slaveFd in sel.writeFds
      ensures |k.received[master]| > |old(k.received[master])| ==> masterFd in sel.readFds
      ensures alive && slaveFd in sel.writeFds && old(masterAvail) > 0 ==> |k.sent[slave]| > |old(k.sent[slave])|
      ensures alive && masterFd in sel.readFds && old(masterAvail) == 0 ==> |k.received[master]| > |old(k.received[master])|
      ensures |k.sent[slave]| >= |old(k.sent[slave])| && |k.received[master]| >= |old(k.received[master])|
      ensures alive <==>
                && !(slaveFd in sel.writeFds && old(masterAvail) > 0 && |k.sent[slave]| == |old(k.sent[slave])|)
                && !(masterFd in sel.readFds && masterAvail == 0 && |k.received[master]| == |old(k.received[master])|)
    {
      hide Filtered, Rewrite, System.Valid;
      NotStdio(k);
      alive := true;
      if masterAvail > 0 {
        var writable := sel.CanWrite(k, slaveFd);
        if writable {
          alive := SendToClient(k);
          if !alive {
            return;
          }
        }
      }
      if masterAvail == 0 {
        var readable := sel.CanRead(k, masterFd);
        if readable {
          alive := ReadServer(k);
        }
      }
    }

    /** The client-to-server half of a round. */
    method FromClient(k: System, sel: FdSets, saved: seq<byte>, fake: seq<byte>) returns (alive: bool)
      requires k.Valid() && Relayed(k) && Attached(k) && sel.Fresh(k, masterFd) && sel.Fresh(k, slaveFd)
      requires saved == this.saved && fake == this.fake
      modifies k`sent, k`received, k`console, k`broken, this`slaveAvail, this`authenticated, this`firstLen, slaveBuf
      ensures k.Valid() && Relayed(k) && OthersKept(k) && k.console == old(k.console) && k.broken == old(k.broken)
      ensures k.sent[slave] == old(k.sent[slave]) && k.received[master] == old(k.received[master])
      ensures |k.sent[master]| > |old(k.sent[master])| ==> masterFd in sel.writeFds
      ensures |k.received[slave]| > |old(k.received[slave])| ==> slaveFd in sel.readFds
      ensures alive && masterFd in sel.writeFds && old(slaveAvail) > 0 ==> |k.sent[master]| > |old(k.sent[master])|
      ensures alive && slaveFd in sel.readFds && old(slaveAvail) == 0 ==> |k.received[slave]| > |old(k.received[slave])|
      ensures |k.sent[master]| >= |old(k.sent[master])| && |k.received[slave]| >= |old(k.received[slave])|
      ensures alive <==>
                && !(masterFd in sel.writeFds && old(slaveAvail) > 0 && |k.sent[master]| == |old(k.sent[master])|)
                && !(slaveFd in sel.readFds && slaveAvail == 0 && |k.received[slave]| == |old(k.received[slave])|)
    {
      hide Filtered, Rewrite, System.Valid;
      NotStdio(k);
      alive := true;
      if slaveAvail > 0 {
        var writable := sel.CanWrite(k, masterFd);
        if writable {
          alive := SendToServer(k);
          if !alive {
            return;
          }
        }
      }
      if slaveAvail == 0 {
        var readable := sel.CanRead(k, slaveFd);
        if readable {
          alive := ReadClient(k, saved, fake);
        }
      }
    }

    ghost function Octets(k: System): Meter
      reads this, k`received, k`sent
    {
      Meter(k.Taken(master), k.Taken(slave), k.Given(master), k.Given(slave), masterAvail, slaveAvail)
    }

    /** A direction that was ready gave nothing: a write of what was pending, or a read into what was or had become an empty buffer. */
    ghost predicate Stalled(reading: set<int>, writing: set<int>, before: Meter, after: Meter) {
      || (slaveFd in writing && before.masterAvail > 0 && after.toClient == before.toClient)
      || (masterFd in reading && after.masterAvail == 0 && after.fromServer == before.fromServer)
      || (masterFd in writing && before.slaveAvail > 0 && after.toServer == before.toServer)
      || (slaveFd in reading && after.slaveAvail == 0 && after.fromClient == before.fromClient)
    }

    /**
     Octets moved only where the kernel reported readiness. The connection
     survives exactly if no ready direction gave nothing; and then octets moved
     in every direction that was ready and could move some.
     */
    ghost predicate Served(reading: set<int>, writing: set<int>, before: Meter, after: Meter, alive: bool)
    {
      && after.toClient >= before.toClient && after.toServer >= before.toServer
      && after.fromClient >= before.fromClient && after.fromServer >= before.fromServer
      && (after.toClient > before.toClient ==> slaveFd in writing)
      && (after.toServer > before.toServer ==> masterFd in writing)
      && (after.fromClient > before.fromClient ==> slaveFd in reading)
      && (after.fromServer > before.fromServer ==> masterFd in reading)
      && (alive <==> !Stalled(reading, writing, before, after))
      && (alive && slaveFd in writing && before.masterAvail > 0 ==> after.toClient > before.toClient)
      && (alive && masterFd in writing && before.slaveAvail > 0 ==> after.toServer > before.toServer)
      && (alive && slaveFd in reading && before.slaveAvail == 0 ==> after.fromClient > before.fromClient)
      && (alive && masterFd in reading && before.masterAvail == 0 ==> after.fromServer > before.fromServer)
    }

    /**
     The body of the loop of `x11_handle_select`; false when the connection is
     to be closed. Octets move exactly where the kernel reported readiness.
     */
    method Service(k: System, sel: FdSets, saved: seq<byte>, fake: seq<byte>) returns (alive: bool)
      requires k.Valid() && Relayed(k) && Attached(k)
      requires sel.Fresh(k, masterFd) && sel.Fresh(k, slaveFd)
      requires saved == this.saved && fake == this.fake
      modifies k`sent, k`received, k`console, k`broken
      modifies this`masterAvail, this`slaveAvail, this`authenticated, this`firstLen, masterBuf, slaveBuf
      ensures k.Valid() && Relayed(k) && OthersKept(k) && k.console == old(k.console) && k.broken == old(k.broken)
      ensures Served(sel.readFds, sel.writeFds, old(Octets(k)), Octets(k), alive)
    {
      hide Filtered, Rewrite, System.Valid;
      alive := FromServer(k, sel);
      if alive {
        alive := FromClient(k, sel, saved, fake);
      }
    }
  }

  /** A connection on which nothing was ready, or on which whatever was ready and due moved octets, is not closed. */
  lemma HealthyStays(io: IoX11, reading: set<int>, writing: set<int>, before: Meter, after: Meter, alive: bool)
    requires io.Served(reading, writing, before, after, alive)
    ensures io.masterFd !in reading + writing && io.slaveFd !in reading + writing ==> alive
    ensures && (io.slaveFd in writing && before.masterAvail > 0 ==> after.toClient > before.toClient)
            && (io.masterFd in writing && before.slaveAvail > 0 ==> after.toServer > before.toServer)
            && (io.slaveFd in reading && after.slaveAvail == 0 ==> after.fromClient > before.fromClient)
            && (io.masterFd in reading && after.masterAvail == 0 ==> after.fromServer > before.fromServer)
            ==> alive
  {
  }

  lemma PolledMore(io: IoX11, r: set<int>, w: set<int>, r': set<int>, w': set<int>)
    requires io.Polled(r, w) && r <= r' && w <= w'
    ensures io.Polled(r', w')
  {
  }

  /** Two connections share no file and no buffer. */
  ghost predicate Apart(a: IoX11, b: IoX11) {
    && a.slave != b.slave
    && a.masterBuf != b.masterBuf && a.masterBuf != b.slaveBuf && a.slaveBuf != b.masterBuf && a.slaveBuf != b.slaveBuf
  }

  /** `io_x11_list`. */
  class X11Table {
    var list: seq<IoX11?>
    /** Every connection there has been, and the objects they are made of. */
    ghost var all: set<IoX11>
    ghost var repr: set<object>

    ghost predicate Entry(k: System, c: IoX11, saved: seq<byte>, fake: seq<byte>)
      reads this`repr, repr, k`received, k`sent, k`owner
    {
      && c in repr && c.masterBuf in repr && c.slaveBuf in repr
      && c.saved == saved && c.fake == fake && c.Relayed(k)
    }

    /** Every connection, closed or not, satisfies the relay's relation, and no two share anything. */
    ghost predicate Streams(k: System, saved: seq<byte>, fake: seq<byte>)
      reads this`repr, this`all, repr, k`received, k`sent, k`owner
    {
      && this !in repr && k !in repr
      && (forall c | c in all :: Entry(k, c, saved, fake))
      && (forall a, b | a in all && b in all && a != b :: Apart(a, b))
    }

    /** Those in the list are open, each once. */
    ghost predicate Slots(k: System)
      reads this`list, this`all, k`table
    {
      && (forall i | 0 <= i < |list| && list[i] != null :: list[i] in all && list[i].Attached(k))
      && (forall i, j | 0 <= i < j < |list| && list[i] != null && list[j] != null :: list[i] != list[j])
    }

    ghost predicate Valid(k: System, saved: seq<byte>, fake: seq<byte>)
      reads this, repr, k`table, k`received, k`sent, k`owner
    {
      Streams(k, saved, fake) && Slots(k)
    }

    constructor ()
      ensures list == [] && all == {} && repr == {}
    {
      list, all, repr := [], {}, {};
    }

    /** An entry's files, hence its descriptors, are not those of any other. */
    lemma EntriesApart(k: System, a: IoX11, b: IoX11)
      requires k.Valid() && a.Owns(k) && b.Owns(k) && a.Attached(k) && b.Attached(k) && a.slave != b.slave
      ensures a.masterFd > 2 && a.slaveFd > 2
      ensures {a.masterFd, a.slaveFd} !! {b.masterFd, b.slaveFd}
    {
      a.NotStdio(k);
    }

    /** `io_x11_free`: the entry is always found, and both its descriptors are closed. */
    method Free(k: System, io: IoX11, ghost at: nat, ghost saved: seq<byte>, ghost fake: seq<byte>)
      requires k.Valid() && Valid(k, saved, fake) && at < |list| && list[at] == io
      modifies this`list, k`table
      ensures k.Valid() && Valid(k, saved, fake)
      ensures list == old(list)[at := null]
      ensures k.table == old(k.table) - {io.masterFd, io.slaveFd}
    {
      hide IoX11.Relayed, Streams;
      Known(k, io, saved, fake);
      io.NotStdio(k);
      forall j | 0 <= j < |list| && list[j] != null && j != at
        ensures {io.masterFd, io.slaveFd} !! {list[j].masterFd, list[j].slaveFd}
      {
        Known(k, list[j], saved, fake);
        assert Apart(io, list[j]) by { BothKnown(k, io, list[j], saved, fake); }
        EntriesApart(k, io, list[j]);
      }
      var i := 0;
      while i < |list| && list[i] != io
        invariant 0 <= i <= at
      {
        i := i + 1;
      }
      list := list[i := null];
      k.Close(io.masterFd);
      k.Close(io.slaveFd);
      forall j | 0 <= j < |list| && list[j] != null
        ensures list[j] in all && list[j].Attached(k)
      {
        assert j != at && list[j] == old(list[j]);
      }
    }

    lemma Known(k: System, c: IoX11, saved: seq<byte>, fake: seq<byte>)
      requires Streams(k, saved, fake) && c in all
      ensures this !in repr && k !in repr && c in repr && c.masterBuf in repr && c.slaveBuf in repr && c.Owns(k)
      ensures c.saved == saved && c.fake == fake && c.Relayed(k)
    {
      assert Entry(k, c, saved, fake);
    }

    lemma BothKnown(k: System, a: IoX11, b: IoX11, saved: seq<byte>, fake: seq<byte>)
      requires Streams(k, saved, fake) && a in all && b in all && a != b
      ensures Apart(a, b)
    {
    }

    /** One round of `x11_handle_select` on one slot in use. */
    method ServeSlot(k: System, sel: FdSets, i: nat, saved: seq<byte>, fake: seq<byte>)
      requires k.Valid() && Valid(k, saved, fake) && i < |list| && list[i] != null
      requires sel.NoneOpened(k) && sel !in repr
      modifies this`list, repr, k`table, k`received, k`sent, k`console, k`broken
      ensures k.Valid() && Valid(k, saved, fake) && sel.NoneOpened(k)
      ensures OnlyConnections(old(k.Snap()), k.Snap()) && k.console == old(k.console) && k.broken == old(k.broken)
      ensures list == old(list) || list == old(list)[i := null]
      ensures old(list[i]).Served(sel.readFds, sel.writeFds, old(list[i].Octets(k)), old(list[i]).Octets(k), list[i] != null)
      ensures forall c | c in all && c != old(list[i]) :: c.Octets(k) == old(c.Octets(k))
      ensures list[i] == null ==> k.table == old(k.table) - {old(list[i]).masterFd, old(list[i]).slaveFd}
      ensures list[i] != null ==> k.table == old(k.table)
    {
      hide OnlyConnections, IoX11.Octets, IoX11.Served, IoX11.Relayed, Streams, System.Valid;
      var io := list[i];
      Known(k, io, saved, fake);
      var alive := ServeEntry(k, sel, io, saved, fake);
      if !alive {
        ghost var served := k.Snap();
        Free(k, io, i, saved, fake);
        ClosedConnection(old(k.Snap()), served, io.masterFd, io.slaveFd);
      }
    }

    /** The same short of closing it. */
    method ServeEntry(k: System, sel: FdSets, io: IoX11, saved: seq<byte>, fake: seq<byte>) returns (alive: bool)
      requires k.Valid() && Streams(k, saved, fake) && io in all && io.Attached(k)
      requires sel.NoneOpened(k) && sel !in repr
      modifies repr, k`received, k`sent, k`console, k`broken
      ensures k.Valid() && Streams(k, saved, fake)
      ensures OnlyConnections(old(k.Snap()), k.Snap()) && k.console == old(k.console) && k.broken == old(k.broken)
      ensures io.Served(sel.readFds, sel.writeFds, old(io.Octets(k)), io.Octets(k), alive)
      ensures forall c | c in all && c != io :: c.Octets(k) == old(c.Octets(k))
    {
      Known(k, io, saved, fake);
      alive := io.Service(k, sel, saved, fake);
      forall c | c in all && c != io
        ensures Entry(k, c, saved, fake) && c.Octets(k) == old(c.Octets(k))
      {
        assert old(Entry(k, c, saved, fake)) && Apart(io, c);
        assert c.master != io.master && c.master != io.slave && c.slave != io.master;
        assert c.masterBuf[..c.masterAvail] == old(c.masterBuf[..c.masterAvail]);
        assert c.slaveBuf[..c.slaveAvail] == old(c.slaveBuf[..c.slaveAvail]);
      }
      assert Entry(k, io, saved, fake);
    }

    /** `x11_handle_select`. */
    method HandleSelect(k: System, sel: FdSets, saved: seq<byte>, fake: seq<byte>)
      requires k.Valid() && Valid(k, saved, fake) && sel.NoneOpened(k) && sel !in repr
      modifies this`list, repr, k`table, k`received, k`sent, k`console, k`broken
      ensures k.Valid() && Valid(k, saved, fake) && sel.NoneOpened(k)
      ensures OnlyConnections(old(k.Snap()), k.Snap()) && k.console == old(k.console) && k.broken == old(k.broken)
      ensures |list| == |old(list)|
      ensures forall i | 0 <= i < |list| && list[i] != null :: list[i] == old(list[i])
      ensures forall i | 0 <= i < |list| && old(list[i]) != null ::
                old(list[i]).Served(sel.readFds, sel.writeFds, old(list[i].Octets(k)), old(list[i]).Octets(k), list[i] != null)
    {
      hide IoX11.Relayed, IoX11.Attached, System.Valid, FdSets.NoneOpened, OnlyConnections, IoX11.Octets, IoX11.Served, Apart;
      ghost var was := list;
      OnlyConnectionsStart(k.Snap());
      var i := 0;
      while i < |list|
        invariant 0 <= i <= |list| == |was|
        invariant k.Valid() && Valid(k, saved, fake) && sel.NoneOpened(k)
        invariant OnlyConnections(old(k.Snap()), k.Snap()) && k.console == old(k.console) && k.broken == old(k.broken)
        invariant forall j | 0 <= j < i && list[j] != null :: list[j] == was[j]
        invariant forall j | i <= j < |list| :: list[j] == was[j]
        invariant forall j | i <= j < |list| && was[j] != null :: was[j].Octets(k) == old(was[j].Octets(k))
        invariant forall j | 0 <= j < i && was[j] != null ::
                    was[j].Served(sel.readFds, sel.writeFds, old(was[j].Octets(k)), was[j].Octets(k), list[j] != null)
      {
        if list[i] != null {
          label round:
          ghost var before := k.Snap();
          ServeSlot(k, sel, i, saved, fake);
          OnlyConnectionsCompose(old(k.Snap()), before, k.Snap());
          forall j | 0 <= j < |was| && j != i && was[j] != null
            ensures was[j].Octets(k) == old@round(was[j].Octets(k))
          {
            assert was[j] in all && was[j] != was[i];
          }
        }
        i := i + 1;
      }
    }

    /** `fds_add_x11`: a connection is polled for reading exactly where its buffer is empty, for writing where it is not. */
    method AddTo(k: System, sel: FdSets)
      requires k.Valid() && sel.Registrable(k) && Slots(k)
      modifies sel`readFds, sel`writeFds, sel`maxFd
      ensures sel.Registrable(k)
      ensures sel.readFds >= old(sel.readFds) && sel.writeFds >= old(sel.writeFds) && sel.maxFd >= old(sel.maxFd)
      ensures forall i | 0 <= i < |list| && list[i] != null :: list[i].Polled(sel.readFds, sel.writeFds)
      ensures forall fd | fd in sel.readFds && fd !in old(sel.readFds) ::
                exists i | 0 <= i < |list| && list[i] != null :: list[i].WantsRead(fd)
      ensures forall fd | fd in sel.writeFds && fd !in old(sel.writeFds) ::
                exists i | 0 <= i < |list| && list[i] != null :: list[i].WantsWrite(fd)
    {
      hide FdSets.Registrable, IoX11.Polled, IoX11.WantsRead, IoX11.WantsWrite, System.Valid;
      var i := 0;
      while i < |list|
        invariant 0 <= i <= |list|
        invariant sel.Registrable(k)
        invariant sel.readFds >= old(sel.readFds) && sel.writeFds >= old(sel.writeFds) && sel.maxFd >= old(sel.maxFd)
        invariant forall j | 0 <= j < i && list[j] != null :: list[j].Polled(sel.readFds, sel.writeFds)
        invariant forall fd | fd in sel.readFds && fd !in old(sel.readFds) ::
                    exists j | 0 <= j < i && list[j] != null :: list[j].WantsRead(fd)
        invariant forall fd | fd in sel.writeFds && fd !in old(sel.writeFds) ::
                    exists j | 0 <= j < i && list[j] != null :: list[j].WantsWrite(fd)
      {
        if list[i] != null {
          ghost var r, w := sel.readFds, sel.writeFds;
          list[i].AddTo(k, sel);
          forall j | 0 <= j < i && list[j] != null
            ensures list[j].Polled(sel.readFds, sel.writeFds)
          {
            PolledMore(list[j], r, w, sel.readFds, sel.writeFds);
          }
        }
        i := i + 1;
      }
    }

    /** `io_x11_new`: take the first free slot, or grow the list by one. */
    method New(k: System, masterFd: int, slaveFd: int, ghost saved: seq<byte>, ghost fake: seq<byte>)
      returns (io: IoX11, ghost at: nat)
      requires k.Valid() && Valid(k, saved, fake) && |saved| == |fake|
      requires masterFd in k.table && slaveFd in k.table
      requires var m, s := k.table[masterFd], k.table[slaveFd];
               && m != s && k.owner[m] == k.owner[s] == Connection(s)
               && k.received[m] == k.sent[m] == k.received[s] == k.sent[s] == []
               && forall c | c in all :: c.slave != s
      modifies this`list, this`all, this`repr
      ensures Valid(k, saved, fake)
      ensures fresh(io) && all == old(all) + {io} && fresh(repr - old(repr)) && repr >= old(repr)
      ensures io.masterFd == masterFd && io.slaveFd == slaveFd && io in list
      ensures at <= |old(list)| && (at < |old(list)| ==> old(list[at]) == null)
      ensures forall j | 0 <= j < at :: old(list[j]) != null
      ensures list == if at < |old(list)| then old(list)[at := io] else old(list) + [io]
    {
      hide IoX11.Relayed, System.Valid;
      io := new IoX11(k, masterFd, slaveFd, saved, fake);
      var i := 0;
      while i < |list| && list[i] != null
        invariant 0 <= i <= |list|
        invariant forall j | 0 <= j < i :: list[j] != null
      {
        i := i + 1;
      }
      at := i;
      if i == |list| {
        list := list + [io];
      } else {
        list := list[i := io];
      }
      assert list[at] == io;
      all := all + {io};
      repr := repr + {io, io.masterBuf, io.slaveBuf};
    }

    /** `x11_handle_new`: accept a client, connect to the server, and pair them; or drop the client. */
    method HandleNew(k: System, sel: FdSets, x11Fd: int, saved: seq<byte>, fake: seq<byte>)
      requires k.Valid() && Valid(k, saved, fake) && |saved| == |fake| && sel.Fresh(k, x11Fd)
      modifies this`list, this`all, this`repr, k`table, k`received, k`sent, k`owner, k`nextFile, k`attempts
      ensures k.Valid() && Valid(k, saved, fake)
      ensures Extends(old(k.Snap()), k.Snap())
      ensures fresh(repr - old(repr)) && repr >= old(repr)
      ensures x11Fd < 0 || x11Fd !in sel.readFds ==> k.table == old(k.table) && list == old(list) && all == old(all)
      ensures all >= old(all) && forall c | c in all && c !in old(all) :: fresh(c) && c in list
      ensures |list| >= |old(list)|
      ensures forall i | 0 <= i < |old(list)| && old(list[i]) != null :: list[i] == old(list[i])
      ensures forall c | c in old(all) :: c.Octets(k) == old(c.Octets(k))
      ensures forall i | 0 <= i < |old(list)| && old(list[i]) == null && list[i] != null :: fresh(list[i])
      ensures all == old(all) ==> list == old(list) && k.table == old(k.table)
      ensures x11Fd < 0 || x11Fd !in sel.readFds ==> k.attempts == old(k.attempts)
      ensures x11Fd >= 0 && x11Fd in sel.readFds ==>
                k.attempts == old(k.attempts) + (if k.nextFile == old(k.nextFile) then 1 else 2)
      ensures k.nextFile == old(k.nextFile) + (if all != old(all) then 2 else if k.attempts == old(k.attempts) + 2 then 1 else 0)
    {
      hide IoX11.Relayed, System.Valid, Extends, Streams, Slots;
      ExtendsStart(k.Snap());
      var ready := sel.CanRead(k, x11Fd);
      if !ready {
        return;
      }
      var acceptFd := Open(k, Connection(k.nextFile), saved, fake);
      if acceptFd < 0 {
        return;
      }
      ConnectServer(k, acceptFd, saved, fake, old(k.Snap()));
    }

    /** Its second half, with the client accepted. */
    method ConnectServer(k: System, acceptFd: int, ghost saved: seq<byte>, ghost fake: seq<byte>, ghost before: Snapshot)
      requires k.Valid() && Valid(k, saved, fake) && |saved| == |fake|
      requires Extends(before, k.Snap()) && acceptFd !in before.table
      requires acceptFd > 2 && acceptFd in k.table
      requires var s := k.table[acceptFd];
               && s in k.owner && s in k.received && s in k.sent && k.owner[s] == Connection(s) && s < k.nextFile
               && k.received[s] == k.sent[s] == [] && forall c | c in all :: c.slave != s
      requires forall i | 0 <= i < |list| && list[i] != null :: acceptFd != list[i].masterFd && acceptFd != list[i].slaveFd
      modifies this`list, this`all, this`repr, k`table, k`received, k`sent, k`owner, k`nextFile, k`attempts
      ensures k.Valid() && Valid(k, saved, fake)
      ensures Extends(before, k.Snap())
      ensures fresh(repr - old(repr)) && repr >= old(repr)
      ensures all >= old(all) && forall c | c in all && c !in old(all) :: fresh(c) && c in list
      ensures |list| >= |old(list)|
      ensures forall i | 0 <= i < |old(list)| && old(list[i]) != null :: list[i] == old(list[i])
      ensures forall c | c in old(all) :: c.Octets(k) == old(c.Octets(k))
      ensures forall i | 0 <= i < |old(list)| && old(list[i]) == null && list[i] != null :: fresh(list[i])
      ensures all == old(all) ==> list == old(list) && k.table == old(k.table) - {acceptFd}
      ensures k.attempts == old(k.attempts) + 1
      ensures if k.nextFile == old(k.nextFile) then all == old(all) else k.nextFile == old(k.nextFile) + 1 && all != old(all)
    {
      hide IoX11.Relayed, System.Valid, Extends, Streams, Slots;
      ghost var middle := k.Snap();
      var connectFd := Open(k, Connection(k.table[acceptFd]), saved, fake);
      ExtendsComposes(before, middle, k.Snap());
      if connectFd >= 0 {
        var io, _ := New(k, connectFd, acceptFd, saved, fake);
        assert io in all && io !in old(all);
      } else {
        CloseExtends(before, k.Snap(), acceptFd);
        Drop(k, acceptFd, saved, fake);
      }
    }

    twostate predicate Frozen()
      reads this, repr
    {
      unchanged(this) && unchanged(repr)
    }

    /** What happens to other files does not concern the connections. */
    twostate lemma Undisturbed(k: System)
      requires old(k.Valid()) && ConnectionsKept(old(k.Snap()), k.Snap()) && Frozen()
      ensures forall saved, fake :: old(Valid(k, saved, fake)) ==> Valid(k, saved, fake)
      ensures forall saved, fake, c | old(Valid(k, saved, fake)) && c in all :: c.Octets(k) == old(c.Octets(k))
    {
      forall saved, fake | old(Valid(k, saved, fake))
        ensures Valid(k, saved, fake)
      {
        forall c | c in all
          ensures Entry(k, c, saved, fake)
        {
          assert old(Entry(k, c, saved, fake));
          assert c.masterBuf[..c.masterAvail] == old(c.masterBuf[..c.masterAvail]);
          assert c.slaveBuf[..c.slaveAvail] == old(c.slaveBuf[..c.slaveAvail]);
        }
        forall i | 0 <= i < |list| && list[i] != null
          ensures list[i].Attached(k)
        {
          assert old(Entry(k, list[i], saved, fake)) && old(list[i].Attached(k));
        }
      }
    }

    lemma EmptyIsValid(k: System, saved: seq<byte>, fake: seq<byte>)
      requires list == [] && all == {} && repr == {}
      ensures Valid(k, saved, fake)
    {
    }

    lemma ListedAreKnown(k: System, saved: seq<byte>, fake: seq<byte>)
      requires Valid(k, saved, fake)
      ensures forall i | 0 <= i < |list| && list[i] != null :: list[i] in all
    {
    }

    /** Without connections there is nothing the cookies could matter to. */
    lemma NoConnections(k: System, saved: seq<byte>, fake: seq<byte>, saved': seq<byte>, fake': seq<byte>)
      requires Valid(k, saved, fake) && all == {}
      ensures Valid(k, saved', fake')
    {
    }

    /** Closing a descriptor of no connection disturbs none. */
    method Drop(k: System, fd: int, ghost saved: seq<byte>, ghost fake: seq<byte>)
      requires k.Valid() && Valid(k, saved, fake) && fd > 2
      requires forall i | 0 <= i < |list| && list[i] != null :: fd != list[i].masterFd && fd != list[i].slaveFd
      modifies k`table
      ensures k.Valid() && Valid(k, saved, fake)
      ensures k.table == old(k.table) - {fd}
    {
      hide IoX11.Relayed;
      k.Close(fd);
    }

    /** Opening a descriptor disturbs no connection. */
    method Open(k: System, ghost who: Owner, ghost saved: seq<byte>, ghost fake: seq<byte>) returns (fd: int)
      requires k.Valid() && Valid(k, saved, fake)
      modifies k`table, k`received, k`sent, k`owner, k`nextFile, k`attempts
      ensures k.Valid() && Valid(k, saved, fake) && fd >= -1
      ensures Extends(old(k.Snap()), k.Snap()) && k.attempts == old(k.attempts) + 1
      ensures fd == -1 ==> k.Snap() == old(k.Snap()) && k.nextFile == old(k.nextFile)
      ensures fd >= 0 ==> k.nextFile == old(k.nextFile) + 1
      ensures fd >= 0 ==>
                var f := old(k.nextFile);
                && fd !in old(k.table) && k.table == old(k.table)[fd := f] && f !in old(k.received)
                && f in k.received && f in k.sent && k.received[f] == k.sent[f] == []
                && f in k.owner && k.owner[f] == who
      ensures forall c | c in all :: c.Octets(k) == old(c.Octets(k))
      ensures fd >= 0 ==> fd > 2 && forall c | c in all :: c.slave != old(k.nextFile) && c.master != old(k.nextFile)
      ensures forall i | 0 <= i < |list| && list[i] != null :: fd != list[i].masterFd && fd != list[i].slaveFd
    {
      fd := k.Open(who);
      if fd >= 0 {
        forall c | c in all
          ensures Entry(k, c, saved, fake) && c.slave != old(k.nextFile) && c.master != old(k.nextFile)
          ensures c.Octets(k) == old(c.Octets(k))
        {
          assert old(Entry(k, c, saved, fake));
        }
      }
    }
  }
}
