/**
 * The address listing of Helpers.GetIPString and Helpers.GetIP.
 *
 * The addresses are the string forms of the unicast addresses of every
 * network interface, in enumeration order (interface by interface). Both
 * helpers drop link-local "169." and loopback "127." addresses and any
 * address containing "::", and append an entry per remaining address to a
 * growing string.
 */
module NetworkAddresses {
  import opened Text

  /** The filter both helpers apply to an address. */
  predicate IsListed(ip: string) {
    !StartsWith(ip, "169.") && !StartsWith(ip, "127.") && !Contains(ip, "::")
  }

  /**
   * What the filter admits, character by character: the address does not
   * begin with the link-local prefix "169." or the loopback prefix "127.",
   * and no two neighbouring characters are both ':'.
   */
  lemma IsListedMeaning(ip: string)
    ensures IsListed(ip) <==>
      && !(|ip| >= 4 && ip[..4] == "169.")
      && !(|ip| >= 4 && ip[..4] == "127.")
      && forall k :: 0 <= k < |ip| - 1 ==> ip[k] != ':' || ip[k + 1] != ':'
  {
    assert StartsWith(ip, "169.") <==> |ip| >= 4 && ip[..4] == "169.";
    assert StartsWith(ip, "127.") <==> |ip| >= 4 && ip[..4] == "127.";
    if Contains(ip, "::") {
      var k: nat :| OccursAt(ip, "::", k);
      assert "::"[0] == ':' && "::"[1] == ':';
      assert ip[k + 0] == ':' && ip[k + 1] == ':';
    }
    if exists k :: 0 <= k < |ip| - 1 && ip[k] == ':' && ip[k + 1] == ':' {
      var k :| 0 <= k < |ip| - 1 && ip[k] == ':' && ip[k + 1] == ':';
      assert OccursAt(ip, "::", k);
    }
  }

  /** The addresses that pass the filter, in enumeration order. */
  function Listed(addresses: seq<string>): (r: seq<string>)
    ensures |r| <= |addresses|
    ensures forall a :: a in r <==> a in addresses && IsListed(a)
  {
    if addresses == [] then []
    else (if IsListed(addresses[0]) then [addresses[0]] else []) + Listed(addresses[1..])
  }

  /** The entries of the given addresses, one after the other. */
  function Entries(ips: seq<string>, format: string -> string): string {
    if ips == [] then "" else format(ips[0]) + Entries(ips[1..], format)
  }

  /** The loop over the addresses: starting from acc, every listed address appends format(address). */
  function AppendListed(acc: string, addresses: seq<string>, format: string -> string): (r: string)
    ensures r == acc + Entries(Listed(addresses), format)
    decreases |addresses|
  {
    if addresses == [] then acc
    else
      var a := addresses[0];
      assert Listed(addresses) == (if IsListed(a) then [a] else []) + Listed(addresses[1..]);
      var rest := Listed(addresses[1..]);
      assert IsListed(a) ==> ([a] + rest)[1..] == rest;
      assert IsListed(a) ==> Entries(Listed(addresses), format) == format(a) + Entries(rest, format);
      assert !IsListed(a) ==> Listed(addresses) == rest;
      var next := if IsListed(a) then acc + format(a) else acc;
      assert next + Entries(rest, format) == acc + Entries(Listed(addresses), format);
      AppendListed(next, addresses[1..], format)
  }

  /** The endpoint of an address on the web server's port. */
  function Endpoint(ip: string): string {
    ip + ":8000"
  }

  function Endpoints(ips: seq<string>): (r: seq<string>)
    ensures |r| == |ips| && forall k :: 0 <= k < |ips| ==> r[k] == Endpoint(ips[k])
  {
    if ips == [] then [] else [Endpoint(ips[0])] + Endpoints(ips[1..])
  }

  /** The first line of GetIPString. */
  function VersionLine(version: string): string {
    "(Version: " + version + ")\r\n"
  }

  /** One GetIPString line; newline is Environment.NewLine of the host. */
  function UrlLine(ip: string, newline: string): string {
    "http://" + Endpoint(ip) + " " + newline
  }

  /** GetIPString: the version line, then the URL line of every listed address, in enumeration order. */
  function GetIPString(version: string, addresses: seq<string>, newline: string): (r: string)
    ensures r == VersionLine(version) + Entries(Listed(addresses), ip => UrlLine(ip, newline))
  {
    AppendListed(VersionLine(version), addresses, ip => UrlLine(ip, newline))
  }

  /** GetIP: the listed endpoints, each followed by a blank, with the white space at both ends trimmed. */
  function GetIP(addresses: seq<string>): (r: string)
    ensures r == [] || (!IsWhiteSpace(r[0]) && !IsWhiteSpace(r[|r| - 1]))
  {
    Trim(AppendListed("", addresses, ip => Endpoint(ip) + " "))
  }

  /** Filtering a concatenation filters each part and keeps their order. */
  lemma {:induction false} ListedAppend(a: seq<string>, b: seq<string>)
    ensures Listed(a + b) == Listed(a) + Listed(b)
    decreases |a|
  {
    if a != [] {
      assert (a + b)[1..] == a[1..] + b;
      ListedAppend(a[1..], b);
    } else {
      assert a + b == b;
    }
  }

  /* ---------------------------------------------------------------------
   * GetIP read back: splitting its result at the blanks gives the listed
   * endpoints, as long as no address itself holds white space.
   * --------------------------------------------------------------------- */

  predicate NoWhiteSpace(s: string) {
    forall k :: 0 <= k < |s| ==> !IsWhiteSpace(s[k])
  }

  /** string.Split(sep): the pieces between the separators; an empty string gives one empty piece. */
  function Split(s: string, sep: char): (parts: seq<string>)
    ensures |parts| >= 1
    decreases |s|
  {
    if s == [] then [""]
    else
      var rest := Split(s[1..], sep);
      if s[0] == sep then [""] + rest else [[s[0]] + rest[0]] + rest[1..]
  }

  /** The pieces joined with one blank between neighbours. */
  function JoinBlanks(parts: seq<string>): string
    requires parts != []
  {
    if |parts| == 1 then parts[0] else parts[0] + " " + JoinBlanks(parts[1..])
  }

  lemma {:induction false} SplitPiece(x: string, y: string)
    requires ' ' !in x
    ensures Split(x + " " + y, ' ') == [x] + Split(y, ' ')
    decreases |x|
  {
    if x == [] {
      assert x + " " + y == [' '] + y;
      assert ([' '] + y)[1..] == y;
    } else {
      assert (x + " " + y)[1..] == x[1..] + " " + y;
      SplitPiece(x[1..], y);
      assert [x[0]] + x[1..] == x;
    }
  }

  lemma {:induction false} SplitWhole(x: string)
    requires ' ' !in x
    ensures Split(x, ' ') == [x]
    decreases |x|
  {
    if x != [] {
      SplitWhole(x[1..]);
      assert [x[0]] + x[1..] == x;
    }
  }

  /** Splitting undoes joining, for pieces without a blank. */
  lemma {:induction false} SplitJoin(parts: seq<string>)
    requires parts != [] && forall k :: 0 <= k < |parts| ==> ' ' !in parts[k]
    ensures Split(JoinBlanks(parts), ' ') == parts
    decreases |parts|
  {
    if |parts| == 1 {
      SplitWhole(parts[0]);
    } else {
      SplitJoin(parts[1..]);
      SplitPiece(parts[0], JoinBlanks(parts[1..]));
    }
  }

  lemma {:induction false} EndpointEntriesJoin(ips: seq<string>)
    requires ips != []
    ensures Entries(ips, ip => Endpoint(ip) + " ") == JoinBlanks(Endpoints(ips)) + " "
    decreases |ips|
  {
    if |ips| > 1 {
      EndpointEntriesJoin(ips[1..]);
      assert Endpoints(ips)[1..] == Endpoints(ips[1..]);
    }
  }

  lemma {:induction false} JoinedEndpointsEnds(ips: seq<string>)
    requires ips != [] && forall k :: 0 <= k < |ips| ==> NoWhiteSpace(ips[k])
    ensures var j := JoinBlanks(Endpoints(ips));
      j != [] && !IsWhiteSpace(j[0]) && !IsWhiteSpace(j[|j| - 1])
    decreases |ips|
  {
    var e := Endpoint(ips[0]);
    assert e[|e| - 1] == '0';
    assert e[0] == if ips[0] == [] then ':' else ips[0][0];
    if |ips| > 1 {
      JoinedEndpointsEnds(ips[1..]);
      assert Endpoints(ips)[1..] == Endpoints(ips[1..]);
    }
  }

  /** The listed addresses are among the given ones, so they keep any property all of those have. */
  lemma ListedNoWhiteSpace(addresses: seq<string>)
    requires forall a :: a in addresses ==> NoWhiteSpace(a)
    ensures forall k :: 0 <= k < |Listed(addresses)| ==> NoWhiteSpace(Listed(addresses)[k])
  {
    var ips := Listed(addresses);
    assert forall k :: 0 <= k < |ips| ==> ips[k] in addresses;
  }

  /** GetIP is the listed endpoints joined by single blanks, or the empty string when none is listed. */
  lemma GetIPJoinsEndpoints(addresses: seq<string>)
    requires forall a :: a in addresses ==> NoWhiteSpace(a)
    ensures Listed(addresses) == [] ==> GetIP(addresses) == ""
    ensures Listed(addresses) != [] ==> GetIP(addresses) == JoinBlanks(Endpoints(Listed(addresses)))
  {
    var ips := Listed(addresses);
    if ips != [] {
      EndpointEntriesJoin(ips);
      ListedNoWhiteSpace(addresses);
      JoinedEndpointsEnds(ips);
      var joined := JoinBlanks(Endpoints(ips));
      assert "" + (joined + " ") == joined + " ";
      TrimDropsTrailingBlank(joined);
    }
  }

  lemma EndpointsHaveNoBlank(ips: seq<string>)
    requires forall k :: 0 <= k < |ips| ==> NoWhiteSpace(ips[k])
    ensures forall k :: 0 <= k < |ips| ==> ' ' !in Endpoints(ips)[k]
  {
    forall k | 0 <= k < |ips|
      ensures ' ' !in Endpoints(ips)[k]
    {
      assert IsWhiteSpace(' ');
      assert ' ' !in ips[k] && ' ' !in ":8000";
    }
  }

  /** GetIP read back: splitting at the blanks gives the endpoints of the listed addresses, in order. */
  lemma GetIPReadBack(addresses: seq<string>)
    requires forall a :: a in addresses ==> NoWhiteSpace(a)
    ensures Listed(addresses) != [] ==> Split(GetIP(addresses), ' ') == Endpoints(Listed(addresses))
  {
    var ips := Listed(addresses);
    if ips != [] {
      GetIPJoinsEndpoints(addresses);
      ListedNoWhiteSpace(addresses);
      EndpointsHaveNoBlank(ips);
      SplitJoin(Endpoints(ips));
    }
  }
}
