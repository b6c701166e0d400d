/** Resolving an address to the network that holds it (find_cidr and
    compare_cidr). The resolver starts from the default route and folds
    compare_cidr over every stored block that contains the address.
    compare_cidr compares the text after '/' of the two blocks as strings,
    not as numbers, so "8" beats "16": the fold keeps the last block whose
    mask text is greatest in string order, which is not the longest prefix.
    find_cidr's docstring (nglib/query/net.py:302) promises the most
    specific block and compare_cidr's (nglib/query/net.py:335) the block
    with the most specific mask; the numeric comparison that keeps that
    promise is modelled beside it. */
module CidrResolver {
  import opened Basics
  import opened Text
  import opened Ipv4

  const DefaultRoute: string := "0.0.0.0/0"

  // ---------------------------------------------------------------------
  // compare_cidr
  // ---------------------------------------------------------------------

  /** The block text holds a '/', so cidr.split('/')[1] exists. */
  predicate HasMask(cidr: string) {
    '/' in cidr
  }

  /** s.split(c)[0]: the text before the first `c`, or all of `s`. */
  function Before(s: string, c: char): string {
    if c in s then s[..IndexOf(s, c)] else s
  }

  /** cidr.split('/')[1], the text between the first '/' and the next,
      when the text holds a '/'; "" otherwise (compare_cidr tests `HasMask`
      first). */
  function Mask(cidr: string): string {
    if HasMask(cidr) then Before(cidr[IndexOf(cidr, '/') + 1..], '/') else ""
  }

  lemma SplitFirstPiece(s: string, c: char)
    ensures Split(s, c)[0] == Before(s, c)
  {
  }

  /** `Mask` is the second '/'-separated piece, and a text has one exactly
      when it holds a '/'. */
  lemma MaskIsSecondPiece(cidr: string)
    ensures HasMask(cidr) <==> |Split(cidr, '/')| >= 2
    ensures HasMask(cidr) ==> Mask(cidr) == Split(cidr, '/')[1]
  {
    if HasMask(cidr) {
      var i := IndexOf(cidr, '/');
      SplitFirstPiece(cidr[i + 1..], '/');
    }
  }

  /** compare_cidr(first, second): `first` when its mask text is greater
      in string order, `second` otherwise; IndexError when either text has
      no '/'. */
  function CompareCidr(first: string, second: string): Result<string> {
    if !HasMask(first) || !HasMask(second) then Err(MissingMask)
    else if LexLess(Mask(second), Mask(first)) then Ok(first)
    else Ok(second)
  }

  /** Neither of two strings is below the other: they are equal. */
  lemma LexNotLessTransitive(a: string, b: string, c: string)
    requires !LexLess(a, b) && !LexLess(b, c)
    ensures !LexLess(a, c)
  {
    if LexLess(a, c) {
      if b != c {
        LexTotal(b, c);
        LexTransitive(a, c, b);
      }
    }
  }

  /** compare_cidr keeps the argument whose mask text is greatest in string
      order, and on equal mask texts it keeps the second argument. */
  lemma CompareCidrKeepsGreaterMask(first: string, second: string)
    requires HasMask(first) && HasMask(second)
    ensures CompareCidr(first, second).Ok?
    ensures CompareCidr(first, second).value in {first, second}
    ensures !LexLess(Mask(CompareCidr(first, second).value), Mask(first))
    ensures !LexLess(Mask(CompareCidr(first, second).value), Mask(second))
    ensures Mask(first) == Mask(second) ==> CompareCidr(first, second) == Ok(second)
  {
    LexIrreflexive(Mask(first));
    LexIrreflexive(Mask(second));
    if LexLess(Mask(second), Mask(first)) {
      LexAsymmetric(Mask(second), Mask(first));
    } else if Mask(first) != Mask(second) {
      LexTotal(Mask(first), Mask(second));
    }
  }

  // ---------------------------------------------------------------------
  // the fold of compare_cidr
  // ---------------------------------------------------------------------

  /** Folds compare_cidr over `xs` from the left, starting from `acc`. */
  function FoldCompare(acc: string, xs: seq<string>): Result<string>
    decreases |xs|
  {
    if xs == [] then Ok(acc)
    else
      var next :- CompareCidr(acc, xs[0]);
      FoldCompare(next, xs[1..])
  }

  predicate AllHaveMask(xs: seq<string>) {
    forall k :: 0 <= k < |xs| ==> HasMask(xs[k])
  }

  /** Position `j` of `s` holds an element whose key no other key exceeds,
      and every later element has a strictly smaller key: `j` is the last
      position of a greatest key. */
  predicate LastGreatest(s: seq<string>, key: string -> string, j: int) {
    && 0 <= j < |s|
    && (forall k :: 0 <= k < |s| ==> !LexLess(key(s[j]), key(s[k])))
    && (forall k :: j < k < |s| ==> LexLess(key(s[k]), key(s[j])))
  }

  /** One compare step in front of a sequence: if the step's winner
      followed by `rest` has its last greatest key at `j'`, then `a, x`
      followed by `rest` has it at `j`, and it is the same element. */
  lemma GreatestStep(a: string, x: string, rest: seq<string>, key: string -> string, j': nat)
    returns (j: nat)
    requires LastGreatest([if LexLess(key(x), key(a)) then a else x] + rest, key, j')
    ensures LastGreatest([a, x] + rest, key, j)
    ensures ([a, x] + rest)[j] == ([if LexLess(key(x), key(a)) then a else x] + rest)[j']
  {
    var ka, kx := key(a), key(x);
    var winner := if LexLess(kx, ka) then a else x;
    var s' := [winner] + rest;
    var s := [a, x] + rest;
    assert s'[0] == winner;
    var top := key(s'[j']);
    assert !LexLess(top, key(winner));
    if LexLess(kx, ka) {
      LexAsymmetric(kx, ka);
      LexNotLessTransitive(top, ka, kx);
    } else {
      if ka != kx { LexTotal(ka, kx); LexAsymmetric(ka, kx); }
      LexIrreflexive(kx);
      LexNotLessTransitive(top, kx, ka);
    }
    j := if j' > 0 then j' + 1 else if LexLess(kx, ka) then 0 else 1;
    assert s[j] == s'[j'];
    forall k | 2 <= k < |s| ensures s[k] == s'[k - 1] { }
  }

  lemma AllHaveMaskTail(xs: seq<string>)
    requires AllHaveMask(xs) && xs != []
    ensures AllHaveMask(xs[1..])
  {
    forall k | 0 <= k < |xs[1..]| ensures HasMask(xs[1..][k]) {
      assert xs[1..][k] == xs[k + 1];
    }
  }

  /** One step of the fold. */
  lemma FoldStep(acc: string, xs: seq<string>)
    requires HasMask(acc) && AllHaveMask(xs) && xs != []
    ensures LexLess(Mask(xs[0]), Mask(acc)) ==> FoldCompare(acc, xs) == FoldCompare(acc, xs[1..])
    ensures !LexLess(Mask(xs[0]), Mask(acc)) ==> FoldCompare(acc, xs) == FoldCompare(xs[0], xs[1..])
  {
    assert HasMask(xs[0]);
  }

  /** The fold returns the last of `acc, xs...` whose mask text is greatest
      in string order. */
  lemma {:induction false} FoldPicksLastGreatest(acc: string, xs: seq<string>) returns (j: nat)
    requires HasMask(acc) && AllHaveMask(xs)
    ensures LastGreatest([acc] + xs, Mask, j)
    ensures FoldCompare(acc, xs) == Ok(([acc] + xs)[j])
    decreases |xs|
  {
    if xs == [] {
      LexIrreflexive(Mask(acc));
      j := 0;
    } else {
      var rest := xs[1..];
      AllHaveMaskTail(xs);
      FoldStep(acc, xs);
      var next := if LexLess(Mask(xs[0]), Mask(acc)) then acc else xs[0];
      var j' := FoldPicksLastGreatest(next, rest);
      assert [acc] + xs == [acc, xs[0]] + rest;
      j := GreatestStep(acc, xs[0], rest, Mask, j');
    }
  }

  // ---------------------------------------------------------------------
  // find_cidr
  // ---------------------------------------------------------------------

  /** What `\d` matches in a str pattern: the Unicode decimal digits
      (general category Nd) of the interpreter's Unicode database. Among
      the ASCII characters these are exactly '0' to '9'; beyond ASCII they
      include, for instance, the Arabic-Indic and the full-width digits,
      which the table of the database in use decides. */
  type DecimalTest = isDecimal: char -> bool
    | forall c: char :: (c as int) < 128 ==> (isDecimal(c) <==> '0' <= c <= '9')
    witness c => '0' <= c <= '9'

  /** A '.'-separated group of one to three decimal digits: `\d{1,3}`. */
  predicate DigitGroup(g: string, isDecimal: DecimalTest) {
    1 <= |g| <= 3 && forall k :: 0 <= k < |g| ==> isDecimal(g[k])
  }

  predicate DottedQuadShape(s: string, isDecimal: DecimalTest) {
    var parts := Split(s, '.');
    |parts| == 4 && DigitGroup(parts[0], isDecimal) && DigitGroup(parts[1], isDecimal)
    && DigitGroup(parts[2], isDecimal) && DigitGroup(parts[3], isDecimal)
  }

  /** re.search(r'^\d{1,3}\.\d{1,3}\.\d{1,3}\.\d{1,3}$', s): `$` also
      matches just before a final newline. */
  predicate MatchesDottedQuad(s: string, isDecimal: DecimalTest) {
    DottedQuadShape(s, isDecimal)
    || (|s| >= 1 && s[|s| - 1] == '\n' && DottedQuadShape(s[..|s| - 1], isDecimal))
  }

  /** The address text find_cidr goes on with: the input itself when it
      looks like a dotted quad, otherwise what name resolution returns for
      it; a failed lookup raises "Hostname Lookup Failure on: <input>". */
  function ResolveHost(ip: string, isDecimal: DecimalTest,
                       resolve: string -> Option<string>): Result<string> {
    if MatchesDottedQuad(ip, isDecimal) then Ok(ip)
    else
      match resolve(ip)
      case Some(addr) => Ok(addr)
      case None => Err(HostnameLookupFailure("Hostname Lookup Failure on: " + ip))
  }

  /** The loop of find_cidr over the stored blocks: each block is parsed
      strictly and, when it contains the address, folded in with
      compare_cidr. */
  function ScanCidrs(ipText: string, acc: string, cidrs: seq<string>): Result<string>
    decreases |cidrs|
  {
    if cidrs == [] then Ok(acc)
    else
      var a :- ParseAddress(ipText);
      var n :- ParseNetwork(cidrs[0]);
      var next :- if Contains(n, a) then CompareCidr(acc, cidrs[0]) else Ok(acc);
      ScanCidrs(ipText, next, cidrs[1..])
  }

  /** find_cidr(ip) against the stored blocks `cidrs`, in the order the
      store returns them. */
  function FindCidrSpec(ip: string, isDecimal: DecimalTest,
                        resolve: string -> Option<string>, cidrs: seq<string>): Result<string> {
    var addr :- ResolveHost(ip, isDecimal, resolve);
    if |cidrs| <= 1 then Ok(DefaultRoute)
    else ScanCidrs(addr, DefaultRoute, cidrs)
  }

  method FindCidr(ip: string, isDecimal: DecimalTest,
                  resolve: string -> Option<string>, cidrs: seq<string>)
    returns (r: Result<string>)
    ensures r == FindCidrSpec(ip, isDecimal, resolve, cidrs)
  {
    var addr := ip;
    if !MatchesDottedQuad(ip, isDecimal) {
      match resolve(ip) {
        case None =>
          return Err(HostnameLookupFailure("Hostname Lookup Failure on: " + ip));
        case Some(resolved) =>
          addr := resolved;
      }
    }
    var mostSpecific := DefaultRoute;
    if |cidrs| > 1 {
      var i := 0;
      while i < |cidrs|
        invariant 0 <= i <= |cidrs|
        invariant ScanCidrs(addr, DefaultRoute, cidrs) == ScanCidrs(addr, mostSpecific, cidrs[i..])
      {
        assert cidrs[i..][1..] == cidrs[i + 1..];
        var a := ParseAddress(addr);
        if a.Err? {
          return Err(a.error);
        }
        var n := ParseNetwork(cidrs[i]);
        if n.Err? {
          return Err(n.error);
        }
        if Contains(n.value, a.value) {
          var c := CompareCidr(mostSpecific, cidrs[i]);
          if c.Err? {
            return Err(c.error);
          }
          mostSpecific := c.value;
        }
        i := i + 1;
      }
    }
    return Ok(mostSpecific);
  }

  /** The stored blocks that parse and contain the address, in store
      order. */
  function ContainingBlocks(a: Address, cidrs: seq<string>): seq<string> {
    if cidrs == [] then []
    else
      var rest := ContainingBlocks(a, cidrs[1..]);
      var n := ParseNetwork(cidrs[0]);
      if n.Ok? && Contains(n.value, a) then [cidrs[0]] + rest else rest
  }

  predicate AllParse(cidrs: seq<string>) {
    forall k :: 0 <= k < |cidrs| ==> ParseNetwork(cidrs[k]).Ok?
  }

  /** When the address and every block parse, the scan is the fold of
      compare_cidr over the containing blocks alone. */
  lemma {:induction false} ScanIsFoldOverContaining(ipText: string, a: Address, acc: string, cidrs: seq<string>)
    requires ParseAddress(ipText) == Ok(a) && AllParse(cidrs)
    ensures ScanCidrs(ipText, acc, cidrs) == FoldCompare(acc, ContainingBlocks(a, cidrs))
    decreases |cidrs|
  {
    if cidrs != [] {
      assert ParseNetwork(cidrs[0]).Ok?;
      var n := ParseNetwork(cidrs[0]).value;
      assert AllParse(cidrs[1..]) by {
        forall k | 0 <= k < |cidrs[1..]| ensures ParseNetwork(cidrs[1..][k]).Ok? {
          assert cidrs[1..][k] == cidrs[k + 1];
        }
      }
      if Contains(n, a) {
        var c := CompareCidr(acc, cidrs[0]);
        if c.Ok? {
          ScanIsFoldOverContaining(ipText, a, c.value, cidrs[1..]);
        }
        assert ([cidrs[0]] + ContainingBlocks(a, cidrs[1..]))[1..] == ContainingBlocks(a, cidrs[1..]);
      } else {
        ScanIsFoldOverContaining(ipText, a, acc, cidrs[1..]);
      }
    }
  }

  lemma ContainingBlocksAreStored(a: Address, cidrs: seq<string>)
    ensures forall k :: 0 <= k < |ContainingBlocks(a, cidrs)| ==> ContainingBlocks(a, cidrs)[k] in cidrs
  {
  }

  /** What find_cidr returns when the address is well formed, every stored
      block parses and every block holding the address has a '/': the
      default route when the store holds at most one
      block; otherwise the last of the default route and the containing
      blocks (in store order) whose mask text is greatest in string
      order. */
  lemma FindCidrResult(ip: string, isDecimal: DecimalTest,
                       resolve: string -> Option<string>, cidrs: seq<string>, a: Address)
    returns (j: nat)
    requires ResolveHost(ip, isDecimal, resolve).Ok?
    requires ParseAddress(ResolveHost(ip, isDecimal, resolve).value) == Ok(a)
    requires AllParse(cidrs) && AllHaveMask(ContainingBlocks(a, cidrs))
    ensures |cidrs| <= 1 ==> FindCidrSpec(ip, isDecimal, resolve, cidrs) == Ok(DefaultRoute)
    ensures |cidrs| > 1 ==>
      var s := [DefaultRoute] + ContainingBlocks(a, cidrs);
      && LastGreatest(s, Mask, j)
      && FindCidrSpec(ip, isDecimal, resolve, cidrs) == Ok(s[j])
  {
    j := 0;
    if |cidrs| > 1 {
      var addr := ResolveHost(ip, isDecimal, resolve).value;
      ScanIsFoldOverContaining(addr, a, DefaultRoute, cidrs);
      var found := ContainingBlocks(a, cidrs);
      DefaultRouteHasMask();
      j := FoldPicksLastGreatest(DefaultRoute, found);
    }
  }

  lemma DefaultRouteHasMask()
    ensures HasMask(DefaultRoute) && Mask(DefaultRoute) == "0"
  {
    assert DefaultRoute[7] == '/';
    assert IndexOf(DefaultRoute, '/') == 7;
    assert DefaultRoute[8..] == "0";
  }

  /** When no stored block contains the address, find_cidr returns the
      default route. */
  lemma NoContainingBlockGivesDefault(ip: string, isDecimal: DecimalTest,
                                      resolve: string -> Option<string>, cidrs: seq<string>, a: Address)
    requires ResolveHost(ip, isDecimal, resolve).Ok?
    requires ParseAddress(ResolveHost(ip, isDecimal, resolve).value) == Ok(a)
    requires AllParse(cidrs)
    requires forall k :: 0 <= k < |cidrs| ==> !Contains(ParseNetwork(cidrs[k]).value, a)
    ensures FindCidrSpec(ip, isDecimal, resolve, cidrs) == Ok(DefaultRoute)
  {
    if |cidrs| > 1 {
      ScanIsFoldOverContaining(ResolveHost(ip, isDecimal, resolve).value, a, DefaultRoute, cidrs);
      NothingContains(a, cidrs);
    }
  }

  lemma {:induction false} NothingContains(a: Address, cidrs: seq<string>)
    requires AllParse(cidrs)
    requires forall k :: 0 <= k < |cidrs| ==> !Contains(ParseNetwork(cidrs[k]).value, a)
    ensures ContainingBlocks(a, cidrs) == []
    decreases |cidrs|
  {
    if cidrs != [] {
      assert cidrs[0] == cidrs[0];
      forall k | 0 <= k < |cidrs[1..]|
        ensures ParseNetwork(cidrs[1..][k]).Ok? && !Contains(ParseNetwork(cidrs[1..][k]).value, a)
      {
        assert cidrs[1..][k] == cidrs[k + 1];
      }
      NothingContains(a, cidrs[1..]);
    }
  }

  /** Every address text the strict parser accepts skips name
      resolution. */
  lemma ParsedAddressSkipsLookup(s: string, isDecimal: DecimalTest,
                                 resolve: string -> Option<string>)
    requires ParseAddress(s).Ok?
    ensures DottedQuadShape(s, isDecimal) && MatchesDottedQuad(s, isDecimal)
    ensures ResolveHost(s, isDecimal, resolve) == Ok(s)
  {
    var parts := Split(s, '.');
    assert ParseOctet(parts[0]).Ok? && ParseOctet(parts[1]).Ok?;
    assert ParseOctet(parts[2]).Ok? && ParseOctet(parts[3]).Ok?;
  }

  /** Four digit groups joined by '.' match the pattern; when the first
      group is not an octet, the text is not an address. */
  lemma DigitGroupsMatch(p: seq<string>, isDecimal: DecimalTest)
    requires |p| == 4
    requires DigitGroup(p[0], isDecimal) && DigitGroup(p[1], isDecimal)
    requires DigitGroup(p[2], isDecimal) && DigitGroup(p[3], isDecimal)
    ensures MatchesDottedQuad(Join(p, '.'), isDecimal)
    ensures ParseOctet(p[0]).Err? ==> ParseAddress(Join(p, '.')).Err?
  {
    DigitsHaveNoDot(p[0], isDecimal);
    DigitsHaveNoDot(p[1], isDecimal);
    DigitsHaveNoDot(p[2], isDecimal);
    DigitsHaveNoDot(p[3], isDecimal);
    SplitJoin(p, '.');
  }

  lemma DigitsHaveNoDot(g: string, isDecimal: DecimalTest)
    requires forall k :: 0 <= k < |g| ==> isDecimal(g[k])
    ensures '.' !in g
  {
    assert !isDecimal('.');
  }

  /** The pattern is looser than the parser: "999.1.1.1" skips name
      resolution and then fails to parse as an address. */
  lemma OutOfRangeOctetMatchesPattern(isDecimal: DecimalTest)
    ensures MatchesDottedQuad("999.1.1.1", isDecimal) && ParseAddress("999.1.1.1").Err?
  {
    var p := ["999", "1", "1", "1"];
    NoOctetAbove255();
    assert p[1..] == ["1", "1", "1"] && p[1..][1..] == ["1", "1"] && p[1..][1..][1..] == ["1"];
    assert Join(["1"], '.') == "1";
    assert Join(["1", "1"], '.') == "1.1";
    assert Join(p[1..], '.') == "1.1.1";
    assert Join(p, '.') == "999.1.1.1";
    DigitGroupsMatch(p, isDecimal);
  }

  lemma NoOctetAbove255()
    ensures ParseOctet("999").Err?
  {
    assert DecimalValue("999") == 999 by {
      assert "999"[..2] == "99" && "99"[..1] == "9" && "9"[..0] == "";
    }
  }

  /** A dotted quad followed by a newline matches the pattern, because its
      `$` also matches before a final newline. */
  lemma NewlineAfterQuadMatches(t: string, isDecimal: DecimalTest)
    requires DottedQuadShape(t, isDecimal)
    ensures MatchesDottedQuad(t + "\n", isDecimal)
  {
    var s := t + "\n";
    assert s[..|s| - 1] == t;
  }

  /** A text whose last '.'-separated piece ends in a newline is not an
      address. */
  lemma NewlineAfterQuadFailsToParse(t: string)
    ensures ParseAddress(t + "\n").Err?
  {
    SplitAppend(t, "\n", '.');
    var parts := Split(t + "\n", '.');
    var last := parts[|parts| - 1];
    assert last[|last| - 1] == '\n';
    assert !AllDigits(last) by { assert !IsDigit(last[|last| - 1]); }
    assert ParseOctet(last).Err?;
    LastOctetMustParse(t + "\n");
  }

  /** Every address text followed by a newline skips name resolution and
      then fails to parse as an address. */
  lemma TrailingNewlineSkipsLookup(t: string, isDecimal: DecimalTest,
                                   resolve: string -> Option<string>)
    requires ParseAddress(t).Ok?
    ensures ResolveHost(t + "\n", isDecimal, resolve) == Ok(t + "\n")
    ensures ParseAddress(t + "\n").Err?
  {
    ParsedAddressSkipsLookup(t, isDecimal, resolve);
    NewlineAfterQuadMatches(t, isDecimal);
    NewlineAfterQuadFailsToParse(t);
  }

  /** Four decimal digits outside ASCII, such as the Arabic-Indic digits U+0660 to U+0669,
      match the pattern, so find_cidr skips name resolution; the text is
      not an address, so with at most one stored block it returns the
      default route, and otherwise ip_address raises a ValueError. */
  lemma NonAsciiDigitsSkipLookup(isDecimal: DecimalTest, resolve: string -> Option<string>,
                                 cidrs: seq<string>, d0: char, d1: char, d2: char, d3: char)
    requires isDecimal(d0) && isDecimal(d1) && isDecimal(d2) && isDecimal(d3)
    requires !IsDigit(d0)
    ensures var s := Join([[d0], [d1], [d2], [d3]], '.');
      && ResolveHost(s, isDecimal, resolve) == Ok(s)
      && ParseAddress(s) == Err(BadAddress)
      && FindCidrSpec(s, isDecimal, resolve, cidrs)
         == if |cidrs| <= 1 then Ok(DefaultRoute) else Err(BadAddress)
  {
    var p := [[d0], [d1], [d2], [d3]];
    var s := Join(p, '.');
    assert !isDecimal('.');
    SplitJoin(p, '.');
    assert DottedQuadShape(s, isDecimal);
    assert ParseOctet([d0]).Err? by { assert !AllDigits([d0]); }
  }

  /** The errors the resolver's scan can raise: a ValueError from a parse
      or compare_cidr's IndexError. */
  lemma {:induction false} ScanErrors(ipText: string, acc: string, cidrs: seq<string>)
    ensures ScanCidrs(ipText, acc, cidrs).Err? ==>
      IsValueError(ScanCidrs(ipText, acc, cidrs).error) || ScanCidrs(ipText, acc, cidrs).error == MissingMask
    decreases |cidrs|
  {
    if cidrs != [] {
      ParseAddressErrors(ipText);
      ParseNetworkErrors(cidrs[0]);
      var a := ParseAddress(ipText);
      var n := ParseNetwork(cidrs[0]);
      if a.Ok? && n.Ok? {
        var next := if Contains(n.value, a.value) then CompareCidr(acc, cidrs[0]) else Ok(acc);
        if next.Ok? {
          ScanErrors(ipText, next.value, cidrs[1..]);
        }
      }
    }
  }

  /** The errors find_cidr raises: a failed name lookup, a ValueError
      from ipaddress, or compare_cidr's IndexError. */
  lemma FindCidrErrors(ip: string, isDecimal: DecimalTest, resolve: string -> Option<string>,
                       cidrs: seq<string>)
    ensures var r := FindCidrSpec(ip, isDecimal, resolve, cidrs);
      r.Err? ==> r.error.HostnameLookupFailure? || IsValueError(r.error) || r.error == MissingMask
  {
    var addr := ResolveHost(ip, isDecimal, resolve);
    if addr.Ok? && |cidrs| > 1 {
      ScanErrors(addr.value, DefaultRoute, cidrs);
    }
  }

  // ---------------------------------------------------------------------
  // the numeric comparison (longest prefix)
  // ---------------------------------------------------------------------

  /** The loop of find_cidr with the mask lengths compared as numbers: a
      containing block replaces the current choice when its prefix is at
      least as long (so, as in compare_cidr, the later of two equal ones
      wins). */
  function ScanLongest(ipText: string, acc: string, accPrefix: nat, cidrs: seq<string>): Result<string>
    decreases |cidrs|
  {
    if cidrs == [] then Ok(acc)
    else
      var a :- ParseAddress(ipText);
      var n :- ParseNetwork(cidrs[0]);
      if Contains(n, a) && n.prefix >= accPrefix then ScanLongest(ipText, cidrs[0], n.prefix, cidrs[1..])
      else ScanLongest(ipText, acc, accPrefix, cidrs[1..])
  }

  /** find_cidr with the numeric comparison. */
  function FindCidrLongest(ip: string, isDecimal: DecimalTest,
                           resolve: string -> Option<string>, cidrs: seq<string>): Result<string> {
    var addr :- ResolveHost(ip, isDecimal, resolve);
    ScanLongest(addr, DefaultRoute, 0, cidrs)
  }

  /** The numeric scan returns the starting choice or a containing block,
      and no containing block has a longer prefix than the one returned. */
  lemma {:induction false} ScanLongestIsLongest(ipText: string, a: Address, acc: string, accPrefix: nat, cidrs: seq<string>)
    returns (prefix: nat)
    requires ParseAddress(ipText) == Ok(a) && AllParse(cidrs)
    ensures ScanLongest(ipText, acc, accPrefix, cidrs).Ok?
    ensures var r := ScanLongest(ipText, acc, accPrefix, cidrs).value;
      || (r == acc && prefix == accPrefix)
      || (r in cidrs && ParseNetwork(r).Ok? && Contains(ParseNetwork(r).value, a)
          && ParseNetwork(r).value.prefix == prefix)
    ensures prefix >= accPrefix
    ensures forall k :: 0 <= k < |cidrs| && Contains(ParseNetwork(cidrs[k]).value, a) ==>
      ParseNetwork(cidrs[k]).value.prefix <= prefix
    decreases |cidrs|
  {
    if cidrs == [] {
      prefix := accPrefix;
    } else {
      var n := ParseNetwork(cidrs[0]).value;
      var rest := cidrs[1..];
      AllParseTail(cidrs);
      ScanLongestStep(ipText, a, acc, accPrefix, cidrs);
      if Contains(n, a) && n.prefix >= accPrefix {
        prefix := ScanLongestIsLongest(ipText, a, cidrs[0], n.prefix, rest);
      } else {
        prefix := ScanLongestIsLongest(ipText, a, acc, accPrefix, rest);
      }
      forall k | 1 <= k < |cidrs| && Contains(ParseNetwork(cidrs[k]).value, a)
        ensures ParseNetwork(cidrs[k]).value.prefix <= prefix
      {
        assert cidrs[k] == rest[k - 1];
      }
      assert forall c :: c in rest ==> c in cidrs;
    }
  }

  lemma AllParseTail(cidrs: seq<string>)
    requires AllParse(cidrs) && cidrs != []
    ensures ParseNetwork(cidrs[0]).Ok? && AllParse(cidrs[1..])
  {
    forall k | 0 <= k < |cidrs[1..]| ensures ParseNetwork(cidrs[1..][k]).Ok? {
      assert cidrs[1..][k] == cidrs[k + 1];
    }
  }

  lemma ScanLongestStep(ipText: string, a: Address, acc: string, accPrefix: nat, cidrs: seq<string>)
    requires ParseAddress(ipText) == Ok(a) && cidrs != [] && ParseNetwork(cidrs[0]).Ok?
    ensures var n := ParseNetwork(cidrs[0]).value;
      ScanLongest(ipText, acc, accPrefix, cidrs)
        == if Contains(n, a) && n.prefix >= accPrefix then ScanLongest(ipText, cidrs[0], n.prefix, cidrs[1..])
           else ScanLongest(ipText, acc, accPrefix, cidrs[1..])
  {
  }

  /** With the numeric comparison and whatever the number of stored blocks,
      find_cidr returns the default route or a block containing the
      address, and no stored block containing the address has a longer
      prefix. */
  lemma FindCidrLongestIsLongest(ip: string, isDecimal: DecimalTest,
                                 resolve: string -> Option<string>, cidrs: seq<string>, a: Address)
    returns (prefix: nat)
    requires ResolveHost(ip, isDecimal, resolve).Ok?
    requires ParseAddress(ResolveHost(ip, isDecimal, resolve).value) == Ok(a)
    requires AllParse(cidrs)
    ensures FindCidrLongest(ip, isDecimal, resolve, cidrs).Ok?
    ensures var r := FindCidrLongest(ip, isDecimal, resolve, cidrs).value;
      ParseNetwork(r).Ok? && Contains(ParseNetwork(r).value, a) && ParseNetwork(r).value.prefix == prefix
    ensures forall k :: 0 <= k < |cidrs| && Contains(ParseNetwork(cidrs[k]).value, a) ==>
      ParseNetwork(cidrs[k]).value.prefix <= prefix
  {
    prefix := ScanLongestIsLongest(ResolveHost(ip, isDecimal, resolve).value, a, DefaultRoute, 0, cidrs);
    DefaultRouteParses();
    DefaultRouteContainsAll(a);
  }

  /** The corrected resolver raises no "No CIDR Results" of its own. */
  lemma FindCidrLongestErrors(ip: string, isDecimal: DecimalTest,
                              resolve: string -> Option<string>, cidrs: seq<string>)
    ensures FindCidrLongest(ip, isDecimal, resolve, cidrs).Err? ==>
      !FindCidrLongest(ip, isDecimal, resolve, cidrs).error.NoCidrResults?
  {
    var addr := ResolveHost(ip, isDecimal, resolve);
    if addr.Ok? {
      ScanLongestErrors(addr.value, DefaultRoute, 0, cidrs);
    }
  }

  lemma {:induction false} ScanLongestErrors(ipText: string, acc: string, accPrefix: nat, cidrs: seq<string>)
    ensures ScanLongest(ipText, acc, accPrefix, cidrs).Err? ==> IsValueError(ScanLongest(ipText, acc, accPrefix, cidrs).error)
    decreases |cidrs|
  {
    if cidrs != [] {
      ParseAddressErrors(ipText);
      ParseNetworkErrors(cidrs[0]);
      var a := ParseAddress(ipText);
      var n := ParseNetwork(cidrs[0]);
      if a.Ok? && n.Ok? {
        ScanLongestErrors(ipText, cidrs[0], n.value.prefix, cidrs[1..]);
        ScanLongestErrors(ipText, acc, accPrefix, cidrs[1..]);
      }
    }
  }

  // ---------------------------------------------------------------------
  // an address the string comparison resolves to the wrong block
  // ---------------------------------------------------------------------

  /** 10.1.2.3 and the blocks 10.0.0.0/8 and 10.1.0.0/16, which both hold
      it. */
  const ExampleHost: Address := 0x0A01_0203
  const WideBlock: Network := Network(0x0A00_0000, 8)
  const NarrowBlock: Network := Network(0x0A01_0000, 16)

  /** The mask text of a written block is its prefix in decimal. */
  lemma MaskOfFormatted(n: Network)
    ensures HasMask(FormatNetwork(n)) && Mask(FormatNetwork(n)) == NatToDecimal(n.prefix)
  {
    SplitFormatNetwork(n.base, n.prefix);
    MaskIsSecondPiece(FormatNetwork(n));
  }

  lemma ExampleFacts()
    ensures ParseAddress(FormatAddress(ExampleHost)) == Ok(ExampleHost)
    ensures ParseNetwork(FormatNetwork(WideBlock)) == Ok(WideBlock)
    ensures ParseNetwork(FormatNetwork(NarrowBlock)) == Ok(NarrowBlock)
    ensures Contains(WideBlock, ExampleHost) && Contains(NarrowBlock, ExampleHost)
    ensures Mask(FormatNetwork(WideBlock)) == "8" && Mask(FormatNetwork(NarrowBlock)) == "16"
  {
    assert Pow2(4) == 16;
    Pow2Add(4, 4);
    Pow2Add(8, 8);
    Pow2Add(16, 8);
    assert BlockSize(8) == 0x100_0000;
    assert BlockSize(16) == 0x1_0000;
    AddressRoundTrip(ExampleHost);
    NetworkRoundTrip(WideBlock);
    NetworkRoundTrip(NarrowBlock);
    MaskOfFormatted(WideBlock);
    MaskOfFormatted(NarrowBlock);
    assert NatToDecimal(16) == NatToDecimal(1) + [DigitChar(6)];
  }

  /** "/8" beats "/16" whichever comes first, because "8" > "16" as
      strings. */
  lemma SlashEightBeatsSlashSixteen()
    ensures CompareCidr(FormatNetwork(WideBlock), FormatNetwork(NarrowBlock)) == Ok(FormatNetwork(WideBlock))
    ensures CompareCidr(FormatNetwork(NarrowBlock), FormatNetwork(WideBlock)) == Ok(FormatNetwork(WideBlock))
  {
    ExampleFacts();
    assert LexLess("16", "8");
    LexAsymmetric("16", "8");
  }

  /** Two stored blocks that both hold the address, the first with a
      mask text greater in string order than the default route's and than
      the second's. */
  predicate TwoHolders(ip: string, c1: string, c2: string) {
    && ParseAddress(ip).Ok?
    && ParseNetwork(c1).Ok? && ParseNetwork(c2).Ok?
    && Contains(ParseNetwork(c1).value, ParseAddress(ip).value)
    && Contains(ParseNetwork(c2).value, ParseAddress(ip).value)
    && HasMask(c1) && HasMask(c2)
  }

  lemma ScanTwoHolders(ip: string, c1: string, c2: string)
    requires TwoHolders(ip, c1, c2)
    requires !LexLess(Mask(c1), "0") && LexLess(Mask(c2), Mask(c1))
    ensures ScanCidrs(ip, DefaultRoute, [c1, c2]) == Ok(c1)
  {
    DefaultRouteHasMask();
    assert CompareCidr(DefaultRoute, c1) == Ok(c1);
    assert CompareCidr(c1, c2) == Ok(c1);
    assert [c1, c2][1..] == [c2];
    assert ScanCidrs(ip, c1, [c2]) == ScanCidrs(ip, c1, []);
  }

  lemma ScanLongestTwoHolders(ip: string, c1: string, c2: string)
    requires TwoHolders(ip, c1, c2)
    requires ParseNetwork(c1).value.prefix <= ParseNetwork(c2).value.prefix
    ensures ScanLongest(ip, DefaultRoute, 0, [c1, c2]) == Ok(c2)
  {
    assert [c1, c2][1..] == [c2];
    var p1 := ParseNetwork(c1).value.prefix;
    assert ScanLongest(ip, DefaultRoute, 0, [c1, c2]) == ScanLongest(ip, c1, p1, [c2]);
    assert ScanLongest(ip, c1, p1, [c2]) == ScanLongest(ip, c2, ParseNetwork(c2).value.prefix, []);
  }

  /** As written: with 10.0.0.0/8 stored before 10.1.0.0/16, find_cidr
      resolves 10.1.2.3 to the /8, because "16" < "8" as strings. */
  lemma StringOrderPicksWiderBlock(isDecimal: DecimalTest, resolve: string -> Option<string>)
    ensures FindCidrSpec(FormatAddress(ExampleHost), isDecimal, resolve,
                         [FormatNetwork(WideBlock), FormatNetwork(NarrowBlock)])
         == Ok(FormatNetwork(WideBlock))
  {
    var ip := FormatAddress(ExampleHost);
    var c8, c16 := FormatNetwork(WideBlock), FormatNetwork(NarrowBlock);
    ExampleFacts();
    ParsedAddressSkipsLookup(ip, isDecimal, resolve);
    assert !LexLess("8", "0") && LexLess("16", "8");
    ScanTwoHolders(ip, c8, c16);
  }

  /** Compared as numbers, the same lookup resolves to the /16. */
  lemma NumericOrderPicksNarrowBlock(isDecimal: DecimalTest, resolve: string -> Option<string>)
    ensures FindCidrLongest(FormatAddress(ExampleHost), isDecimal, resolve,
                            [FormatNetwork(WideBlock), FormatNetwork(NarrowBlock)])
         == Ok(FormatNetwork(NarrowBlock))
  {
    var ip := FormatAddress(ExampleHost);
    var c8, c16 := FormatNetwork(WideBlock), FormatNetwork(NarrowBlock);
    ExampleFacts();
    ParsedAddressSkipsLookup(ip, isDecimal, resolve);
    ScanLongestTwoHolders(ip, c8, c16);
  }

  /** As written: with only 10.1.0.0/16 stored, find_cidr skips its loop
      and resolves 10.1.2.3 to the default route, although the one stored
      block holds it. */
  lemma OneStoredBlockGivesDefault(isDecimal: DecimalTest, resolve: string -> Option<string>)
    ensures FindCidrSpec(FormatAddress(ExampleHost), isDecimal, resolve, [FormatNetwork(NarrowBlock)])
         == Ok(DefaultRoute)
  {
    var ip := FormatAddress(ExampleHost);
    AddressRoundTrip(ExampleHost);
    ParsedAddressSkipsLookup(ip, isDecimal, resolve);
    assert ResolveHost(ip, isDecimal, resolve) == Ok(ip);
    assert |[FormatNetwork(NarrowBlock)]| == 1;
  }

  /** Without the guard, the same lookup resolves to the /16. */
  lemma OneStoredBlockResolves(isDecimal: DecimalTest, resolve: string -> Option<string>)
    ensures FindCidrLongest(FormatAddress(ExampleHost), isDecimal, resolve, [FormatNetwork(NarrowBlock)])
         == Ok(FormatNetwork(NarrowBlock))
  {
    var ip := FormatAddress(ExampleHost);
    ExampleFacts();
    ParsedAddressSkipsLookup(ip, isDecimal, resolve);
    ScanLongestOneHolder(ip, FormatNetwork(NarrowBlock));
  }

  lemma ScanLongestOneHolder(ip: string, c: string)
    requires ParseAddress(ip).Ok? && ParseNetwork(c).Ok?
    requires Contains(ParseNetwork(c).value, ParseAddress(ip).value)
    ensures ScanLongest(ip, DefaultRoute, 0, [c]) == Ok(c)
  {
    assert [c][1..] == [];
  }
}
