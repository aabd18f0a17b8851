/**
 * The client address behind trusted proxies: a right-to-left walk over the
 * forwarded chain. `clean` stands for `trim().toLowerCase()`.
 */
module ProxyChain {
  import opened Text
  import opened Wrappers

  // ------------------------------------------------------------- one address

  function IndexOf(s: string, c: char, from: nat): (index: int)
    requires from <= |s|
    ensures index == -1 || (from <= index < |s| && s[index] == c)
    ensures forall i | from <= i < (if index == -1 then |s| else index) :: s[i] != c
    decreases |s| - from
  {
    if from == |s| then -1 else if s[from] == c then from else IndexOf(s, c, from + 1)
  }

  function LastIndexOf(s: string, c: char): (index: int)
    ensures -1 <= index < |s| && (index >= 0 ==> s[index] == c)
    ensures forall i | index < i < |s| :: s[i] != c
  {
    if s == "" then -1 else if s[|s| - 1] == c then |s| - 1 else LastIndexOf(s[..|s| - 1], c)
  }

  /** Strips brackets from an IPv6 literal and the port from `host:port`. */
  function Stripped(text: string): string
    requires text != ""
  {
    var closing := IndexOf(text, ']', 0);
    if text[0] == '[' && closing > 1 then text[1..closing]
    else
      var colon := IndexOf(text, ':', 0);
      if colon != -1 && colon == LastIndexOf(text, ':') && text[colon + 1..] != "" && AllDigits(text[colon + 1..])
      then text[..colon]
      else text
  }

  function AddressNormalize(clean: string -> string, value: Option<string>): Option<string> {
    if value.None? || clean(value.value) == "" then None else Some(Stripped(clean(value.value)))
  }

  // ---------------------------------------------------------------- the chain

  /** `split(",")` */
  function Split(s: string): (parts: seq<string>)
    ensures parts != []
  {
    if s == "" then [""] else Attach(s[0], Split(s[1..]))
  }

  function Attach(c: char, parts: seq<string>): (longer: seq<string>)
    requires parts != []
    ensures longer != []
  {
    if c == ',' then [""] + parts else [[c] + parts[0]] + parts[1..]
  }

  function AddressOf(clean: string -> string, part: string): seq<string> {
    match AddressNormalize(clean, Some(part)) case Some(a) => [a] case None => []
  }

  function FlatMap(f: string -> seq<string>, parts: seq<string>): seq<string> {
    if parts == [] then [] else f(parts[0]) + FlatMap(f, parts[1..])
  }

  /** Map and keep what is defined. */
  function Addresses(clean: string -> string, parts: seq<string>): seq<string> {
    FlatMap(part => AddressOf(clean, part), parts)
  }

  datatype Options = Options(directAddress: Option<string>, forwardedFor: Option<string>, trustedProxyAddresses: seq<string>)

  function Trusted(clean: string -> string, o: Options): set<string> {
    set i | 0 <= i < |o.trustedProxyAddresses| && AddressNormalize(clean, Some(o.trustedProxyAddresses[i])).Some? ::
      AddressNormalize(clean, Some(o.trustedProxyAddresses[i])).value
  }

  function Chain(clean: string -> string, o: Options, direct: string): seq<string> {
    Addresses(clean, Split(if o.forwardedFor.Some? then o.forwardedFor.value else "")) + [direct]
  }

  /** The last address of the chain that is not a trusted proxy. */
  function RightmostUntrusted(chain: seq<string>, trusted: set<string>): Option<string> {
    if chain == [] then None
    else if chain[|chain| - 1] !in trusted then Some(chain[|chain| - 1])
    else RightmostUntrusted(chain[..|chain| - 1], trusted)
  }

  function Resolve(clean: string -> string, o: Options): string {
    match AddressNormalize(clean, o.directAddress)
    case None => "unknown"
    case Some(direct) =>
      if direct !in Trusted(clean, o) then direct
      else
        var chain := Chain(clean, o, direct);
        match RightmostUntrusted(chain, Trusted(clean, o))
        case Some(address) => address
        case None => chain[0]
  }

  method TrustedProxyIpResolve(clean: string -> string, o: Options) returns (address: string)
    ensures address == Resolve(clean, o)
  {
    var direct := AddressNormalize(clean, o.directAddress);
    if direct.None? {
      return "unknown";
    }
    var trusted := Trusted(clean, o);
    if direct.value !in trusted {
      return direct.value;
    }
    address := WalkBack(Chain(clean, o, direct.value), trusted);
  }

  method WalkBack(chain: seq<string>, trusted: set<string>) returns (address: string)
    requires chain != []
    ensures match RightmostUntrusted(chain, trusted)
      case Some(found) => address == found
      case None => address == chain[0]
  {
    var index := |chain| - 1;
    assert chain[..index + 1] == chain;
    while index >= 0
      invariant -1 <= index < |chain|
      invariant RightmostUntrusted(chain, trusted) == RightmostUntrusted(chain[..index + 1], trusted)
    {
      assert chain[..index + 1][..index] == chain[..index];
      if chain[index] !in trusted {
        return chain[index];
      }
      index := index - 1;
    }
    return chain[0];
  }

  // --------------------------------------------------------------- what it means

  ghost predicate IsRightmostUntrusted(chain: seq<string>, trusted: set<string>, address: string) {
    exists i | 0 <= i < |chain| ::
      chain[i] == address && chain[i] !in trusted && forall j | i < j < |chain| :: chain[j] in trusted
  }

  lemma {:induction false} TrustedAtTheEnd(chain: seq<string>, last: string, trusted: set<string>, address: string)
    requires last in trusted
    ensures IsRightmostUntrusted(chain + [last], trusted, address) <==> IsRightmostUntrusted(chain, trusted, address)
  {
    var longer, n := chain + [last], |chain|;
    assert longer[n] == last;
    if i :| 0 <= i < n && chain[i] == address && chain[i] !in trusted && forall j | i < j < n :: chain[j] in trusted {
      assert longer[i] == address && forall j | i < j < n :: longer[j] == chain[j];
    }
    if i :| 0 <= i <= n && longer[i] == address && longer[i] !in trusted && forall j | i < j <= n :: longer[j] in trusted {
      assert chain[i] == address && forall j | i < j < n :: chain[j] == longer[j];
    }
  }

  /** Everything to the right of the answer is a trusted proxy, and the answer is not. */
  lemma {:induction false} RightmostExactly(chain: seq<string>, trusted: set<string>, address: string)
    ensures RightmostUntrusted(chain, trusted) == Some(address) <==> IsRightmostUntrusted(chain, trusted, address)
    ensures RightmostUntrusted(chain, trusted).None? <==> forall i | 0 <= i < |chain| :: chain[i] in trusted
  {
    if chain != [] {
      var n := |chain| - 1;
      assert chain == chain[..n] + [chain[n]];
      RightmostExactly(chain[..n], trusted, address);
      if chain[n] in trusted { TrustedAtTheEnd(chain[..n], chain[n], trusted, address); }
    }
  }

  lemma {:induction false} SplitAtComma(front: string, back: string)
    ensures Split(front + "," + back) == Split(front) + Split(back)
  {
    var whole := front + "," + back;
    if front == "" {
      assert whole[1..] == back;
    } else {
      assert whole[1..] == front[1..] + "," + back;
      SplitAtComma(front[1..], back);
      AttachToBoth(front[0], Split(front[1..]), Split(back));
    }
  }

  lemma {:induction false} AttachToBoth(c: char, parts: seq<string>, more: seq<string>)
    requires parts != []
    ensures Attach(c, parts + more) == Attach(c, parts) + more
  {
  }

  lemma {:induction false} FlatMapOfBoth(f: string -> seq<string>, front: seq<string>, back: seq<string>)
    ensures FlatMap(f, front + back) == FlatMap(f, front) + FlatMap(f, back)
  {
    if front == [] {
      assert front + back == back;
    } else {
      assert (front + back)[1..] == front[1..] + back;
      FlatMapOfBoth(f, front[1..], back);
    }
  }

  lemma {:induction false} RightmostOfBoth(front: seq<string>, back: seq<string>, trusted: set<string>)
    ensures RightmostUntrusted(front + back, trusted)
         == if RightmostUntrusted(back, trusted).Some? then RightmostUntrusted(back, trusted)
            else RightmostUntrusted(front, trusted)
  {
    if back == [] {
      assert front + back == front;
    } else {
      var n := |back| - 1;
      assert (front + back)[..|front| + n] == front + back[..n];
      RightmostOfBoth(front, back[..n], trusted);
    }
  }

  /** What a client puts in front of the header. */
  function Prepended(o: Options, text: string): Options
    requires o.forwardedFor.Some?
  {
    o.(forwardedFor := Some(text + "," + o.forwardedFor.value))
  }

  /**
   * Text before the header counts only when every address the proxies vouch for is itself
   * trusted; otherwise no text a client prepends can change the answer.
   */
  lemma {:induction false} PrependedTextIsIgnored(clean: string -> string, o: Options, text: string)
    requires o.forwardedFor.Some?
    ensures match AddressNormalize(clean, o.directAddress)
      case None => Resolve(clean, Prepended(o, text)) == Resolve(clean, o)
      case Some(direct) =>
        var trusted, chain := Trusted(clean, o), Chain(clean, o, direct);
        var front := Addresses(clean, Split(text));
        Resolve(clean, Prepended(o, text)) ==
          if direct in trusted && RightmostUntrusted(chain, trusted).None? && front != [] then
            match RightmostUntrusted(front, trusted) case Some(address) => address case None => front[0]
          else Resolve(clean, o)
  {
    if AddressNormalize(clean, o.directAddress).Some? {
      var direct := AddressNormalize(clean, o.directAddress).value;
      var trusted, chain := Trusted(clean, o), Chain(clean, o, direct);
      var front := Addresses(clean, Split(text));
      SplitAtComma(text, o.forwardedFor.value);
      FlatMapOfBoth(part => AddressOf(clean, part), Split(text), Split(o.forwardedFor.value));
      assert Trusted(clean, Prepended(o, text)) == trusted;
      assert Chain(clean, Prepended(o, text), direct) == front + chain;
      RightmostOfBoth(front, chain, trusted);
    }
  }

  // ------------------------------------------------- addresses and chains, exactly

  /** A bracket opens the text and the first one that closes is at `k`. */
  predicate IsBracketed(text: string, k: int) {
    1 < k < |text| && text[0] == '[' && text[k] == ']' && forall j | 0 <= j < k :: text[j] != ']'
  }

  /** The only colon is at `k`, and nothing but digits, at least one, follows it. */
  predicate HasPort(text: string, k: int) {
    0 <= k < |text| - 1 && text[k] == ':' && (forall j | 0 <= j < |text| && j != k :: text[j] != ':')
    && forall j | k < j < |text| :: '0' <= text[j] <= '9'
  }

  /** What is left of an address: what its brackets hold, or what stands before its port, or all of it. */
  lemma {:induction false} StrippedExactly(text: string)
    requires text != ""
    ensures forall k | IsBracketed(text, k) :: Stripped(text) == text[1..k]
    ensures (forall j :: !IsBracketed(text, j)) ==> forall k | HasPort(text, k) :: Stripped(text) == text[..k]
    ensures (forall j :: !IsBracketed(text, j)) && (forall k :: !HasPort(text, k)) ==> Stripped(text) == text
  {
    BracketIsFirst(text, IndexOf(text, ']', 0));
    PortIsOnly(text, IndexOf(text, ':', 0));
  }

  /** Blank addresses are none; of the others what is left is taken from the trimmed and lowered text. */
  lemma {:induction false} AddressExactly(clean: string -> string, text: string)
    ensures AddressNormalize(clean, None) == None
    ensures AddressNormalize(clean, Some(text)) == if clean(text) == "" then None else Some(Stripped(clean(text)))
  {
  }

  lemma {:induction false} BracketIsFirst(text: string, closing: int)
    requires text != "" && closing == IndexOf(text, ']', 0)
    ensures text[0] == '[' && closing > 1 ==> IsBracketed(text, closing)
    ensures forall k | IsBracketed(text, k) :: k == closing
  {
  }

  lemma {:induction false} PortIsOnly(text: string, colon: int)
    requires text != "" && colon == IndexOf(text, ':', 0)
    ensures forall k | HasPort(text, k) :: k == colon
    ensures colon != -1 && colon == LastIndexOf(text, ':') && text[colon + 1..] != "" && AllDigits(text[colon + 1..]) <==>
            HasPort(text, colon)
  {
    if colon != -1 && colon < |text| - 1 {
      var port := text[colon + 1..];
      assert forall j | colon < j < |text| :: text[j] == port[j - colon - 1];
    }
  }

  function JoinedWithCommas(parts: seq<string>): string
    requires parts != []
  {
    if |parts| == 1 then parts[0] else parts[0] + "," + JoinedWithCommas(parts[1..])
  }

  lemma {:induction false} AttachExactly(c: char, parts: seq<string>)
    requires parts != []
    ensures JoinedWithCommas(Attach(c, parts)) == [c] + JoinedWithCommas(parts)
    ensures (forall i | 0 <= i < |parts| :: ',' !in parts[i]) ==>
              forall i | 0 <= i < |Attach(c, parts)| :: ',' !in Attach(c, parts)[i]
  {
    var longer := Attach(c, parts);
    if c == ',' {
      assert longer[1..] == parts;
    } else if |parts| > 1 {
      var rest := JoinedWithCommas(parts[1..]);
      assert longer[1..] == parts[1..] && [c] + (parts[0] + "," + rest) == ([c] + parts[0]) + "," + rest;
    }
  }

  /** Splitting leaves parts without commas, which joined with commas give the text back. */
  lemma {:induction false} SplitExactly(s: string)
    ensures JoinedWithCommas(Split(s)) == s
    ensures forall i | 0 <= i < |Split(s)| :: ',' !in Split(s)[i]
  {
    if s != "" {
      SplitExactly(s[1..]);
      AttachExactly(s[0], Split(s[1..]));
      assert s == [s[0]] + s[1..];
    }
  }

  /** The addresses of a list of parts are those of each part in turn; a part without one is left out. */
  lemma {:induction false} AddressesExactly(clean: string -> string, front: seq<string>, part: string)
    ensures Addresses(clean, []) == []
    ensures Addresses(clean, front + [part]) ==
            match AddressNormalize(clean, Some(part)) case Some(a) => Addresses(clean, front) + [a] case None => Addresses(clean, front)
  {
    var f := (p: string) => AddressOf(clean, p);
    FlatMapOfBoth(part => AddressOf(clean, part), front, [part]);
    assert [part][1..] == [];
  }

  lemma {:induction false} TrustedExactly(clean: string -> string, o: Options, address: string)
    ensures address in Trusted(clean, o) <==>
            exists entry | entry in o.trustedProxyAddresses :: AddressNormalize(clean, Some(entry)) == Some(address)
  {
    if i :| 0 <= i < |o.trustedProxyAddresses| && AddressNormalize(clean, Some(o.trustedProxyAddresses[i])) == Some(address) {
      assert o.trustedProxyAddresses[i] in o.trustedProxyAddresses;
    }
  }

  /** The answer: an untrusted peer itself, or the last address before only trusted ones, or else the first of the chain. */
  lemma {:induction false} ResolveExactly(clean: string -> string, o: Options)
    ensures AddressNormalize(clean, o.directAddress).None? ==> Resolve(clean, o) == "unknown"
    ensures AddressNormalize(clean, o.directAddress).Some? ==>
      var direct, trusted := AddressNormalize(clean, o.directAddress).value, Trusted(clean, o);
      var chain := Addresses(clean, Split(if o.forwardedFor.Some? then o.forwardedFor.value else "")) + [direct];
      if direct !in trusted then Resolve(clean, o) == direct
      else if forall i | 0 <= i < |chain| :: chain[i] in trusted then Resolve(clean, o) == chain[0]
      else IsRightmostUntrusted(chain, trusted, Resolve(clean, o))
  {
    if AddressNormalize(clean, o.directAddress).Some? {
      var direct, trusted := AddressNormalize(clean, o.directAddress).value, Trusted(clean, o);
      RightmostExactly(Chain(clean, o, direct), trusted, Resolve(clean, o));
    }
  }
}
