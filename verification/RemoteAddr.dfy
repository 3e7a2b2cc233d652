/** Host parts of peer addresses, and the rewriting of an address when a proxy
    tells the real client address. Splitting follows Go's net.SplitHostPort. */
module RemoteAddr {
  import opened Common

  function IndexOf(s: string, c: char): (r: int)
    ensures r == -1 || 0 <= r < |s|
    ensures r == -1 <==> c !in s
    ensures r >= 0 ==> s[r] == c && c !in s[..r]
  {
    if s == "" then -1
    else if s[0] == c then 0
    else
      var r := IndexOf(s[1..], c);
      assert s == [s[0]] + s[1..];
      if r < 0 then -1
      else
        assert s[..r + 1] == [s[0]] + s[1..][..r];
        r + 1
  }

  function LastIndexOf(s: string, c: char): (r: int)
    ensures r == -1 || 0 <= r < |s|
    ensures r == -1 <==> c !in s
    ensures r >= 0 ==> s[r] == c && c !in s[r + 1..]
  {
    if s == "" then -1
    else
      var n := |s| - 1;
      assert s == s[..n] + [s[n]];
      if s[n] == c then n
      else
        var r := LastIndexOf(s[..n], c);
        if r < 0 then -1
        else
          assert s[r + 1..] == s[..n][r + 1..] + [s[n]];
          r
  }

  /** The host of "host:port" or "[host]:port"; None on any of the errors. */
  function SplitHostPort(s: string): Option<string>
  {
    var i := LastIndexOf(s, ':');
    if i < 0 then None
    else if s[0] == '[' then
      var end := IndexOf(s, ']');
      if end < 0 || end + 1 != i || '[' in s[1..] || ']' in s[end + 1..] then None
      else Some(s[1..end])
    else if ':' in s[..i] || '[' in s || ']' in s then None
    else Some(s[..i])
  }

  function Host(addr: string): string
  {
    var h := SplitHostPort(addr);
    if h.Some? then h.value else addr
  }

  /** The address kept after the host was replaced. It is cut at the first colon. */
  function WithHost(addr: string, host: string): string
  {
    if addr == "" then ""
    else
      var i := IndexOf(addr, ':');
      if i >= 0 then host + ":" + addr[i + 1..] else host
  }

  predicate Plain(s: string)
  {
    ':' !in s && '[' !in s && ']' !in s
  }

  lemma {:induction false} LastIndexAtLeast(s: string, c: char, j: nat)
    requires j < |s| && s[j] == c
    ensures LastIndexOf(s, c) >= j
  {
    if j < |s| - 1 {
      LastIndexAtLeast(s[..|s| - 1], c, j);
    }
  }

  lemma {:induction false} IndexAtMost(s: string, c: char, j: nat)
    requires j < |s| && s[j] == c
    ensures 0 <= IndexOf(s, c) <= j
  {
    if j > 0 {
      IndexAtMost(s[1..], c, j - 1);
    }
  }

  lemma LastColon(ip: string, rest: string)
    ensures LastIndexOf(ip + ":" + rest, ':') == |ip| <==> ':' !in rest
    ensures LastIndexOf(ip + ":" + rest, ':') >= |ip|
  {
    hide LastIndexOf;
    var s := ip + ":" + rest;
    LastIndexAtLeast(s, ':', |ip|);
    assert s[|ip| + 1..] == rest;
    var i := LastIndexOf(s, ':');
    assert i > |ip| ==> s[i] == rest[i - |ip| - 1];
  }

  lemma BracketsOfJoined(ip: string, rest: string)
    ensures var s := ip + ":" + rest;
            && ('[' in s <==> '[' in ip || '[' in rest)
            && (']' in s <==> ']' in ip || ']' in rest)
  {
  }

  lemma BracketedHost(s: string)
    requires s != "" && s[0] == '['
    ensures SplitHostPort(s).Some? ==> '[' !in SplitHostPort(s).value
  {
    hide IndexOf, LastIndexOf;
    var end := IndexOf(s, ']');
    if end >= 1 {
      assert forall k :: 0 <= k < end - 1 ==> s[1..end][k] == s[1..][k];
    }
  }

  lemma SplitIsShorter(s: string)
    ensures SplitHostPort(s).Some? ==> |SplitHostPort(s).value| < |s|
  {
    hide IndexOf, LastIndexOf;
  }

  /** Splitting gives back the joined host exactly when neither part has a colon
      or a bracket. */
  lemma HostOfJoined(ip: string, rest: string)
    requires ip != ""
    ensures Host(ip + ":" + rest) == ip <==> Plain(ip) && Plain(rest)
  {
    hide IndexOf, LastIndexOf;
    var s := ip + ":" + rest;
    assert s[0] == ip[0] && |s| > |ip|;
    if s[0] == '[' {
      BracketedHost(s);
      assert '[' in ip;
    } else {
      LastColon(ip, rest);
      BracketsOfJoined(ip, rest);
      assert s[..|ip|] == ip;
      assert |s[..LastIndexOf(s, ':')]| == LastIndexOf(s, ':');
    }
  }

  lemma {:induction false} FirstIndex(h: string, c: char, rest: string)
    requires c !in h
    ensures IndexOf(h + [c] + rest, c) == |h|
  {
    var s := h + [c] + rest;
    if h == "" {
      assert s[0] == c;
    } else {
      FirstIndex(h[1..], c, rest);
      assert s[1..] == h[1..] + [c] + rest;
    }
  }

  /** A bracketed address "[host]:port", as an IPv6 peer has, splits into its host
      exactly when the host has no bracket and the port neither colon nor bracket. */
  lemma HostOfBracketedAddr(h: string, port: string)
    ensures SplitHostPort("[" + h + "]:" + port) == Some(h) <==> '[' !in h && ']' !in h && Plain(port)
  {
    hide IndexOf, LastIndexOf;
    var ip := "[" + h + "]";
    var s := ip + ":" + port;
    assert "[" + h + "]:" + port == s;
    LastColon(ip, port);
    var i, end := LastIndexOf(s, ':'), IndexOf(s, ']');
    assert s[0] == '[' && |ip| == |h| + 2;
    BracketedParts(h, port);
    if ']' !in h {
      FirstIndex("[" + h, ']', ":" + port);
      assert ("[" + h) + [']'] + (":" + port) == s;
      assert s[1..|h| + 1] == h;
    } else {
      EndsEarlier(h, port);
    }
  }

  lemma BracketedParts(h: string, port: string)
    ensures var s := "[" + h + "]:" + port;
            && s[1..] == h + "]:" + port && s[|h| + 2..] == ":" + port
            && ('[' in s[1..] <==> '[' in h || '[' in port)
            && (']' in s[|h| + 2..] <==> ']' in port)
  {
    var s := "[" + h + "]:" + port;
    assert s[1..] == h + "]:" + port;
    assert s[|h| + 2..] == ":" + port;
  }

  lemma EndsEarlier(h: string, port: string)
    requires ']' in h
    ensures 0 <= IndexOf("[" + h + "]:" + port, ']') <= |h|
  {
    var s := "[" + h + "]:" + port;
    var k :| 0 <= k < |h| && h[k] == ']';
    assert s[k + 1] == ']';
    IndexAtMost(s, ']', k + 1);
  }

  /** When replacing the host leaves an address with that host. */
  predicate Rewritable(addr: string, ip: string)
  {
    if addr == "" then false
    else
      var i := IndexOf(addr, ':');
      if i >= 0 then Plain(ip) && Plain(addr[i + 1..]) else SplitHostPort(ip).None?
  }

  lemma RewriteExactly(addr: string, ip: string)
    requires ip != ""
    ensures Host(WithHost(addr, ip)) == ip <==> Rewritable(addr, ip)
  {
    hide IndexOf, LastIndexOf, Plain, SplitHostPort;
    if addr == "" {
      SplitIsShorter("");
    } else if IndexOf(addr, ':') >= 0 {
      hide Host;
      HostOfJoined(ip, addr[IndexOf(addr, ':') + 1..]);
    } else {
      SplitIsShorter(ip);
    }
  }

  /** An address "host:port" of plain parts. */
  predicate PlainAddr(addr: string)
  {
    var i := IndexOf(addr, ':');
    i >= 0 && Plain(addr[..i]) && Plain(addr[i + 1..])
  }

  lemma PlainRewrites(addr: string, ip: string)
    requires PlainAddr(addr) && Plain(ip)
    ensures Rewritable(addr, ip) && PlainAddr(WithHost(addr, ip))
  {
    hide IndexOf;
    var rest := addr[IndexOf(addr, ':') + 1..];
    FirstIndex(ip, ':', rest);
    assert (ip + ":" + rest)[..|ip|] == ip && (ip + ":" + rest)[|ip| + 1..] == rest;
  }

  /** An address with two colons, as of every IPv6 peer, is not rewritable at all. */
  lemma TwoColons(addr: string, i: nat, j: nat, ip: string)
    requires i < j < |addr| && addr[i] == ':' && addr[j] == ':'
    ensures !Rewritable(addr, ip)
  {
    hide IndexOf;
    IndexAtMost(addr, ':', i);
    var k := IndexOf(addr, ':');
    assert addr[k + 1..][j - k - 1] == ':';
  }

  /** Nor is an unknown peer, nor any "host:port" to a replacement with a colon, as
      every IPv6 client has. */
  lemma NotRewritable(addr: string, ip: string)
    requires addr == "" || (':' in addr && ':' in ip) || (exists i, j :: 0 <= i < j < |addr| && addr[i] == ':' && addr[j] == ':')
    ensures !Rewritable(addr, ip)
  {
    hide IndexOf;
    if i, j :| 0 <= i < j < |addr| && addr[i] == ':' && addr[j] == ':' {
      TwoColons(addr, i, j, ip);
    }
  }
}
