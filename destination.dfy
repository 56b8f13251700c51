/**
 * `parse_destination`: the anchored pattern
 *   ^(?:/.*?/)?([0-9.]+)(?:%[0-9])?:([0-9]+)$
 * applied to a virtual server's destination such as `/Partition2/10.195.0.49%2:443`.
 * The regular expression is written out as the search its engine performs:
 * the optional `/.../` prefix is tried first, closing at the earliest `/`
 * after which the rest matches (`.*?` is lazy and `.` stops at a newline);
 * `$` also matches in front of one final newline.
 */
module Destination {
  import opened Wrappers
  import opened Faults

  datatype Endpoint = Endpoint(ip: string, port: string)

  predicate IsDigit(c: char) {
    '0' <= c <= '9'
  }

  predicate IsIpChar(c: char) {
    IsDigit(c) || c == '.'
  }

  /** A non-empty run of digits and dots. */
  predicate IsIp(s: string) {
    s != [] && forall i | 0 <= i < |s| :: IsIpChar(s[i])
  }

  /** A non-empty run of digits. */
  predicate IsPort(s: string) {
    s != [] && forall i | 0 <= i < |s| :: IsDigit(s[i])
  }

  /** An optional route domain: nothing, or `%` and exactly one digit. */
  predicate IsRouteDomain(rd: string) {
    rd == [] || (|rd| == 2 && rd[0] == '%' && IsDigit(rd[1]))
  }

  /** What `$` lets through after the port: nothing or a single final newline. */
  predicate IsLineEnd(nl: string) {
    nl == [] || nl == "\n"
  }

  /** End of the longest run of IP characters from position `i` (the greedy `[0-9.]+`). */
  function IpEnd(s: string, i: nat): (n: nat)
    requires i <= |s|
    ensures i <= n <= |s|
    decreases |s| - i
  {
    if i == |s| || !IsIpChar(s[i]) then i else IpEnd(s, i + 1)
  }

  /** End of the longest run of digits from position `i` (the greedy `[0-9]+`). */
  function DigitEnd(s: string, i: nat): (n: nat)
    requires i <= |s|
    ensures i <= n <= |s|
    decreases |s| - i
  {
    if i == |s| || !IsDigit(s[i]) then i else DigitEnd(s, i + 1)
  }

  /** `([0-9.]+)(?:%[0-9])?:([0-9]+)$` matched from position `i` of `s`. */
  function MatchAddress(s: string, i: nat): Option<Endpoint>
    requires i <= |s|
  {
    var b := IpEnd(s, i);
    var c := if b + 2 <= |s| && s[b] == '%' && IsDigit(s[b + 1]) then b + 2 else b;
    if b == i || c == |s| || s[c] != ':' then None
    else
      var d := DigitEnd(s, c + 1);
      if d > c + 1 && (d == |s| || (d + 1 == |s| && s[d] == '\n'))
      then Some(Endpoint(s[i..b], s[c + 1..d]))
      else None
  }

  /** The lazy `/.*?/` prefix: try to close it at each `/` from position `j` on. */
  function PrefixSearch(s: string, j: nat): Option<Endpoint>
    requires 1 <= j <= |s|
    decreases |s| - j
  {
    if j == |s| || s[j] == '\n' then None
    else if s[j] == '/' && MatchAddress(s, j + 1).Some? then MatchAddress(s, j + 1)
    else PrefixSearch(s, j + 1)
  }

  /** `parse_destination(dest)`; no match is the IndexError of `findall(...)[0]`. */
  function ParseDestination(dest: string): (r: Result<Endpoint, Fault>)
    ensures r.Err? ==> r.error == MalformedDestination(dest)
  {
    var withPrefix := if dest != [] && dest[0] == '/' then PrefixSearch(dest, 1) else None;
    var m := if withPrefix.Some? then withPrefix else MatchAddress(dest, 0);
    if m.Some? then Ok(m.value) else Err(MalformedDestination(dest))
  }

  /** `s[..a]` is empty or a `/.../` prefix without a newline. */
  predicate Prefixed(s: string, a: nat)
    requires a <= |s|
  {
    a == 0 || (a >= 2 && s[0] == '/' && s[a - 1] == '/' && forall k | 0 <= k < a :: s[k] != '\n')
  }

  /**
   * Positions a <= b <= c < d that cut `s` into an optional `/.../` prefix
   * `s[..a]`, the IP `s[a..b]`, a route domain `s[b..c]`, the `:` at `c`,
   * the port `s[c + 1..d]` and a line end `s[d..]`.
   */
  ghost predicate Cuts(s: string, a: nat, b: nat, c: nat, d: nat) {
    && a <= b <= c < d <= |s|
    && Prefixed(s, a)
    && IsIp(s[a..b]) && IsRouteDomain(s[b..c]) && s[c] == ':' && IsPort(s[c + 1..d]) && IsLineEnd(s[d..])
  }

  /** A destination parses exactly when it can be cut into the documented parts, and then gives that IP and port. */
  lemma ParsedCuts(dest: string) returns (a: nat, b: nat, c: nat, d: nat)
    requires ParseDestination(dest).Ok?
    ensures Cuts(dest, a, b, c, d)
    ensures ParseDestination(dest).value == Endpoint(dest[a..b], dest[c + 1..d])
  {
    if dest != [] && dest[0] == '/' && PrefixSearch(dest, 1).Some? {
      var close := PrefixSearchShape(dest, 1);
      a := close + 1;
    } else {
      a := 0;
    }
    b, c, d := MatchAddressCuts(dest, a);
  }

  /**
   * Conversely, every destination that can be cut parses, to exactly the cut
   * IP and port, even when the prefix is a folder path holding more `/`: the
   * address after the last `/` holds none, so the lazy prefix can close only there.
   */
  lemma CutsParsed(dest: string, a: nat, b: nat, c: nat, d: nat)
    requires Cuts(dest, a, b, c, d)
    ensures ParseDestination(dest) == Ok(Endpoint(dest[a..b], dest[c + 1..d]))
  {
    CutsMatchAddress(dest, a, b, c, d);
    if a > 0 {
      LastSlashCloses(dest, a);
    } else {
      assert dest[0] == dest[a..b][0];
    }
  }

  /** A route domain of two or more digits is not accepted: such a destination is malformed. */
  lemma MultiDigitRouteDomainRejected(dest: string, a: nat, b: nat)
    requires a <= b && b + 3 <= |dest|
    requires Prefixed(dest, a)
    requires IsIp(dest[a..b]) && dest[b] == '%' && IsDigit(dest[b + 1]) && IsDigit(dest[b + 2])
    requires forall k | a <= k < |dest| :: dest[k] != '/'
    ensures ParseDestination(dest).Err?
  {
    IpEndOf(dest, a, b);
    assert MatchAddress(dest, a) == None;
    if a > 0 {
      forall k | 1 <= k < |dest| && dest[k] == '/' ensures MatchAddress(dest, k + 1).None? {
        if k < a - 1 {
          MatchAddressNoSlash(dest, k + 1);
        }
      }
      PrefixSearchNone(dest, 1);
    } else {
      assert dest[0] == dest[a..b][0];
    }
  }

  lemma {:induction false} IpEndMaximal(s: string, i: nat)
    requires i <= |s|
    ensures forall k | i <= k < IpEnd(s, i) :: IsIpChar(s[k])
    ensures IpEnd(s, i) == |s| || !IsIpChar(s[IpEnd(s, i)])
    decreases |s| - i
  {
    if i < |s| && IsIpChar(s[i]) {
      IpEndMaximal(s, i + 1);
    }
  }

  lemma {:induction false} DigitEndMaximal(s: string, i: nat)
    requires i <= |s|
    ensures forall k | i <= k < DigitEnd(s, i) :: IsDigit(s[k])
    decreases |s| - i
  {
    if i < |s| && IsDigit(s[i]) {
      DigitEndMaximal(s, i + 1);
    }
  }

  lemma {:induction false} IpEndOf(s: string, i: nat, b: nat)
    requires i <= b <= |s|
    requires forall k | i <= k < b :: IsIpChar(s[k])
    requires b == |s| || !IsIpChar(s[b])
    ensures IpEnd(s, i) == b
    decreases b - i
  {
    if i < b {
      IpEndOf(s, i + 1, b);
    }
  }

  lemma {:induction false} DigitEndOf(s: string, i: nat, d: nat)
    requires i <= d <= |s|
    requires forall k | i <= k < d :: IsDigit(s[k])
    requires d == |s| || !IsDigit(s[d])
    ensures DigitEnd(s, i) == d
    decreases d - i
  {
    if i < d {
      DigitEndOf(s, i + 1, d);
    }
  }

  lemma MatchAddressCuts(s: string, a: nat) returns (b: nat, c: nat, d: nat)
    requires a <= |s| && MatchAddress(s, a).Some?
    requires Prefixed(s, a)
    ensures Cuts(s, a, b, c, d)
    ensures MatchAddress(s, a).value == Endpoint(s[a..b], s[c + 1..d])
  {
    b := IpEnd(s, a);
    IpEndMaximal(s, a);
    c := if b + 2 <= |s| && s[b] == '%' && IsDigit(s[b + 1]) then b + 2 else b;
    d := DigitEnd(s, c + 1);
    DigitEndMaximal(s, c + 1);
    assert IsIp(s[a..b]);
    assert IsPort(s[c + 1..d]);
  }

  lemma CutsMatchAddress(s: string, a: nat, b: nat, c: nat, d: nat)
    requires Cuts(s, a, b, c, d)
    ensures MatchAddress(s, a) == Some(Endpoint(s[a..b], s[c + 1..d]))
  {
    assert forall k | a <= k < b :: IsIpChar(s[k]) by {
      forall k | a <= k < b ensures IsIpChar(s[k]) { assert s[k] == s[a..b][k - a]; }
    }
    assert forall k | c + 1 <= k < d :: IsDigit(s[k]) by {
      forall k | c + 1 <= k < d ensures IsDigit(s[k]) { assert s[k] == s[c + 1..d][k - c - 1]; }
    }
    if b < c {
      assert s[b] == s[b..c][0] && s[b + 1] == s[b..c][1];
    }
    IpEndOf(s, a, b);
    if d < |s| {
      assert s[d] == s[d..][0];
    }
    DigitEndOf(s, c + 1, d);
  }

  /** An address the pattern accepts holds no `/`. */
  lemma MatchAddressNoSlash(s: string, i: nat)
    requires i <= |s|
    ensures MatchAddress(s, i).Some? ==> forall k | i <= k < |s| :: s[k] != '/'
  {
    IpEndMaximal(s, i);
    var b := IpEnd(s, i);
    var c := if b + 2 <= |s| && s[b] == '%' && IsDigit(s[b + 1]) then b + 2 else b;
    if b != i && c < |s| && s[c] == ':' {
      DigitEndMaximal(s, c + 1);
    }
  }

  /** A prefix that closes at `a - 1` is found, or one closing earlier is. */
  lemma {:induction false} PrefixSearchReaches(s: string, j: nat, a: nat)
    requires 1 <= j < a <= |s| && s[a - 1] == '/'
    requires forall k | j <= k < a :: s[k] != '\n'
    requires MatchAddress(s, a).Some?
    ensures PrefixSearch(s, j).Some?
    ensures (forall k | j <= k < a - 1 && s[k] == '/' :: MatchAddress(s, k + 1).None?) ==>
      PrefixSearch(s, j) == MatchAddress(s, a)
    decreases a - j
  {
    if j < a - 1 && !(s[j] == '/' && MatchAddress(s, j + 1).Some?) {
      PrefixSearchReaches(s, j + 1, a);
    }
  }

  /** When the address matches after the prefix `s[..a]`, the lazy prefix search closes at `a - 1` and nowhere earlier. */
  lemma LastSlashCloses(s: string, a: nat)
    requires 0 < a <= |s| && Prefixed(s, a)
    requires MatchAddress(s, a).Some?
    ensures PrefixSearch(s, 1) == MatchAddress(s, a)
  {
    forall k | 1 <= k < a - 1 && s[k] == '/' ensures MatchAddress(s, k + 1).None? {
      MatchAddressNoSlash(s, k + 1);
    }
    PrefixSearchReaches(s, 1, a);
  }

  /** With no `/` after which the address matches, the prefix cannot close. */
  lemma {:induction false} PrefixSearchNone(s: string, j: nat)
    requires 1 <= j <= |s|
    requires forall k | j <= k < |s| && s[k] == '/' :: MatchAddress(s, k + 1).None?
    ensures PrefixSearch(s, j) == None
    decreases |s| - j
  {
    if j < |s| && s[j] != '\n' {
      PrefixSearchNone(s, j + 1);
    }
  }

  lemma {:induction false} PrefixSearchShape(s: string, j: nat) returns (close: nat)
    requires 1 <= j <= |s| && s[0] == '/'
    requires forall k | 0 <= k < j :: s[k] != '\n'
    requires PrefixSearch(s, j).Some?
    ensures j <= close < |s| && s[close] == '/'
    ensures forall k | 0 <= k <= close :: s[k] != '\n'
    ensures PrefixSearch(s, j) == MatchAddress(s, close + 1)
    decreases |s| - j
  {
    if s[j] == '/' && MatchAddress(s, j + 1).Some? {
      close := j;
    } else {
      close := PrefixSearchShape(s, j + 1);
    }
  }

  /** A destination written the way the appliance writes them. */
  function Format(partition: Option<string>, ip: string, routeDomain: string, port: string, lineEnd: string): string {
    (if partition.Some? then "/" + partition.value + "/" else "") + ip + routeDomain + ":" + port + lineEnd
  }

  /**
   * Round trip: a destination assembled from a partition (or a folder path
   * such as an iApp's `Common/app.app`), an IP, a route domain and a port
   * gives back that IP and port.
   */
  lemma ParseFormatted(partition: Option<string>, ip: string, routeDomain: string, port: string, lineEnd: string)
    requires partition.Some? ==> '\n' !in partition.value
    requires IsIp(ip) && IsRouteDomain(routeDomain) && IsPort(port) && IsLineEnd(lineEnd)
    ensures ParseDestination(Format(partition, ip, routeDomain, port, lineEnd)) == Ok(Endpoint(ip, port))
  {
    var pre := if partition.Some? then "/" + partition.value + "/" else "";
    var s1 := pre + ip;
    var s2 := s1 + routeDomain;
    var s3 := s2 + ":";
    var s4 := s3 + port;
    var s := s4 + lineEnd;
    assert s == Format(partition, ip, routeDomain, port, lineEnd);
    var a, b, c := |pre|, |s1|, |s2|;
    SliceLeft(s4, lineEnd, a, b);
    SliceLeft(s3, port, a, b);
    SliceLeft(s2, ":", a, b);
    SliceLeft(s1, routeDomain, a, b);
    SliceRight(pre, ip);
    SliceLeft(s4, lineEnd, b, c);
    SliceLeft(s3, port, b, c);
    SliceLeft(s2, ":", b, c);
    SliceRight(s1, routeDomain);
    SliceLeft(s4, lineEnd, c + 1, |s4|);
    SliceRight(s3, port);
    assert s[c] == ':' by { assert s[c] == s4[c] == s3[c]; }
    assert s[|s4|..] == lineEnd;
    assert forall k | 0 <= k < a :: s[k] == pre[k] by {
      forall k | 0 <= k < a ensures s[k] == pre[k] {
        assert s[k] == s4[k] == s3[k] == s2[k] == s1[k];
      }
    }
    if partition.Some? {
      var part := partition.value;
      assert forall k | 0 < k < a - 1 :: pre[k] == part[k - 1];
      assert forall k | 0 <= k < a :: pre[k] != '\n' by {
        forall k | 0 <= k < a ensures pre[k] != '\n' {
          if 0 < k < a - 1 { assert part[k - 1] in part; }
        }
      }
    }
    assert Cuts(s, a, b, c, |s4|);
    CutsParsed(s, a, b, c, |s4|);
  }

  lemma SliceLeft(x: string, y: string, i: nat, j: nat)
    requires i <= j <= |x|
    ensures (x + y)[i..j] == x[i..j]
  {
  }

  lemma SliceRight(x: string, y: string)
    ensures (x + y)[|x|..] == y
  {
  }

  /** The example the source documents. */
  lemma DocumentedExample()
    ensures ParseDestination("/Partition2/10.195.0.49%2:443") == Ok(Endpoint("10.195.0.49", "443"))
  {
    assert "/Partition2/10.195.0.49%2:443" == Format(Some("Partition2"), "10.195.0.49", "%2", "443", "");
    ParseFormatted(Some("Partition2"), "10.195.0.49", "%2", "443", "");
  }

  /** A virtual server inside an iApp folder: the folder path is passed over. */
  lemma FolderExample()
    ensures ParseDestination("/Common/app.app/10.0.0.1:443") == Ok(Endpoint("10.0.0.1", "443"))
  {
    assert "/Common/app.app/10.0.0.1:443" == Format(Some("Common/app.app"), "10.0.0.1", "", "443", "");
    ParseFormatted(Some("Common/app.app"), "10.0.0.1", "", "443", "");
  }
}
