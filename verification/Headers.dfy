/** Hop-by-hop header filtering (section 7.6.1 of RFC 9110). */
module Headers {
  import opened Wrappers
  import opened Text
  import opened Models

  const HOP_BY_HOP_HEADERS: set<string> := {
    "connection", "keep-alive", "proxy-authenticate", "proxy-authorization", "te", "trailer",
    "transfer-encoding", "upgrade", "content-length"
  }
  const PROXY_ONLY_HEADERS: set<string> := {"proxy-connection", "proxy-authorization", "proxy-authenticate"}

  /** The non-blank comma-separated items of a Connection value, in lower case. */
  function TokensOf(value: string): set<string> {
    set part | part in Split(value, ",") && Strip(part) != "" :: Lower(Strip(part))
  }

  function ConnectionTokens(headers: HeaderList): set<string> {
    if headers == [] then {}
    else
      ConnectionTokens(headers[..|headers| - 1]) +
      (var h := headers[|headers| - 1]; if Lower(h.0) == "connection" then TokensOf(h.1) else {})
  }

  function Blocked(headers: HeaderList): set<string> {
    HOP_BY_HOP_HEADERS + PROXY_ONLY_HEADERS + ConnectionTokens(headers)
  }

  /** The headers whose lower-case name is not blocked, in order. */
  function Kept(headers: HeaderList, blocked: set<string>): (r: HeaderList)
    ensures |r| <= |headers|
  {
    if headers == [] then []
    else
      (if Lower(headers[0].0) in blocked then [] else [headers[0]]) + Kept(headers[1..], blocked)
  }

  function Filter(headers: HeaderList): HeaderList {
    Kept(headers, Blocked(headers))
  }

  method FilterForwardHeaders(headers: HeaderList) returns (r: HeaderList)
    ensures r == Filter(headers)
  {
    var connectionTokens: set<string> := {};
    for k := 0 to |headers|
      invariant connectionTokens == ConnectionTokens(headers[..k])
    {
      assert headers[..k + 1][..k] == headers[..k];
      if Lower(headers[k].0) == "connection" {
        connectionTokens := connectionTokens + TokensOf(headers[k].1);
      }
    }
    assert headers[..|headers|] == headers;
    var blocked := HOP_BY_HOP_HEADERS + PROXY_ONLY_HEADERS + connectionTokens;
    r := Kept(headers, blocked);
  }

  // ---- What filtering keeps ----------------------------------------------

  /** `positions` picks `sub` out of `s` from left to right. */
  ghost predicate PicksOut<T>(s: seq<T>, positions: seq<int>, sub: seq<T>) {
    && |positions| == |sub|
    && (forall k :: 0 <= k < |sub| ==> 0 <= positions[k] < |s| && s[positions[k]] == sub[k])
    && (forall k, l :: 0 <= k < l < |sub| ==> positions[k] < positions[l])
  }

  ghost predicate IsSubsequence<T>(sub: seq<T>, s: seq<T>) {
    exists positions :: PicksOut(s, positions, sub)
  }

  lemma SubsequenceAfter<T>(x: T, s: seq<T>, sub: seq<T>)
    requires IsSubsequence(sub, s)
    ensures IsSubsequence(sub, [x] + s) && IsSubsequence([x] + sub, [x] + s)
  {
    var positions :| PicksOut(s, positions, sub);
    var shifted := seq(|positions|, k requires 0 <= k < |positions| => positions[k] + 1);
    assert PicksOut([x] + s, shifted, sub);
    assert PicksOut([x] + s, [0] + shifted, [x] + sub);
  }

  lemma {:induction false} KeptIsSubsequence(headers: HeaderList, blocked: set<string>)
    ensures IsSubsequence(Kept(headers, blocked), headers)
  {
    if headers == [] {
      assert PicksOut(headers, [], Kept(headers, blocked));
    } else {
      KeptIsSubsequence(headers[1..], blocked);
      SubsequenceAfter(headers[0], headers[1..], Kept(headers[1..], blocked));
      assert headers == [headers[0]] + headers[1..];
      assert [] + Kept(headers[1..], blocked) == Kept(headers[1..], blocked);
    }
  }

  lemma {:induction false} KeptMultiplicity(headers: HeaderList, blocked: set<string>, h: (string, string))
    ensures multiset(Kept(headers, blocked))[h] == if Lower(h.0) in blocked then 0 else multiset(headers)[h]
  {
    if headers != [] {
      KeptMultiplicity(headers[1..], blocked, h);
      assert headers == [headers[0]] + headers[1..];
    }
  }

  /** A stretch of the text without a comma, between commas or ends of the text. */
  ghost predicate IsItem(value: string, i: int, j: int) {
    && 0 <= i <= j <= |value|
    && (i == 0 || value[i - 1] == ',') && (j == |value| || value[j] == ',')
    && forall k :: i <= k < j ==> value[k] != ','
  }

  /** The item [i, j) is spaces, then a core [a, b) that neither begins nor ends in one, then spaces. */
  ghost predicate HasCore(value: string, i: int, a: int, b: int, j: int) {
    && IsItem(value, i, j) && i <= a < b <= j
    && (forall k :: i <= k < a ==> IsSpace(value[k])) && (forall k :: b <= k < j ==> IsSpace(value[k]))
    && !IsSpace(value[a]) && !IsSpace(value[b - 1])
  }

  ghost predicate IsLowered(name: string, text: string) {
    |name| == |text| && forall k :: 0 <= k < |text| ==> name[k] == LowerChar(text[k])
  }

  /** Some item of the comma-separated list is this name, in any case and with any space around it. */
  ghost predicate Lists(value: string, name: string) {
    exists i, a, b, j :: HasCore(value, i, a, b, j) && IsLowered(name, value[a..b])
  }

  lemma SplitAtComma(value: string, p: nat)
    requires Find(value, ",") == Some(p)
    ensures p < |value| && Split(value, ",") == [value[..p]] + Split(value[p + 1..], ",")
  {
  }

  lemma NoComma(value: string)
    requires Find(value, ",") == None
    ensures Split(value, ",") == [value] && forall k :: 0 <= k < |value| ==> value[k] != ','
  {
    NotFoundAbsent(value, ',');
  }

  lemma {:induction false} PartIsItem(value: string, part: string) returns (i: nat, j: nat)
    requires part in Split(value, ",")
    ensures IsItem(value, i, j) && part == value[i..j]
    decreases |value|
  {
    match Find(value, ",")
    case None =>
      NoComma(value);
      i, j := 0, |value|;
    case Some(p) =>
      NoCommaBefore(value, p);
      SplitAtComma(value, p);
      if part == value[..p] {
        i, j := 0, p;
      } else {
        var i', j' := PartIsItem(value[p + 1..], part);
        i, j := p + 1 + i', p + 1 + j';
        ItemFromSuffix(value, p + 1, i, j, i', j');
        SliceOfSuffix(value, p + 1, i, j, i', j');
      }
  }

  lemma NoCommaBefore(value: string, p: nat)
    requires Find(value, ",") == Some(p)
    ensures p < |value| && value[p] == ',' && forall k :: 0 <= k < p ==> value[k] != ','
  {
    FoundIsFirst(value, ",");
    assert value[p..p + 1] == ",";
    forall k | 0 <= k < p
      ensures value[k] != ','
    {
      assert !OccursAt(value, ",", k);
      assert value[k..k + 1] == [value[k]];
    }
  }

  lemma SliceOfSuffix(value: string, m: nat, i: nat, j: nat, i': nat, j': nat)
    requires m <= |value| && i == m + i' && j == m + j' && i' <= j' <= |value| - m
    ensures value[i..j] == value[m..][i'..j']
  {
    var rest := value[m..];
    forall k | 0 <= k < j - i
      ensures value[i..j][k] == rest[i'..j'][k]
    {
      assert value[i + k] == rest[i' + k];
    }
  }

  lemma ItemInSuffix(value: string, m: nat, i: nat, j: nat, i': nat, j': nat)
    requires 0 < m <= |value| && value[m - 1] == ',' && i == m + i' && j == m + j' && j' <= |value| - m
    requires IsItem(value, i, j)
    ensures IsItem(value[m..], i', j')
  {
    var rest := value[m..];
    forall k | i' <= k < j'
      ensures rest[k] != ','
    {
      assert rest[k] == value[m + k];
    }
    assert i' > 0 ==> rest[i' - 1] == value[i - 1];
    assert j' < |rest| ==> rest[j'] == value[j];
  }

  lemma ItemFromSuffix(value: string, m: nat, i: nat, j: nat, i': nat, j': nat)
    requires 0 < m <= |value| && value[m - 1] == ',' && i == m + i' && j == m + j' && j' <= |value| - m
    requires IsItem(value[m..], i', j')
    ensures IsItem(value, i, j)
  {
    var rest := value[m..];
    forall k | i <= k < j
      ensures value[k] != ','
    {
      assert value[k] == rest[k - m];
    }
    assert i' > 0 ==> rest[i' - 1] == value[i - 1];
    assert j' < |rest| ==> rest[j'] == value[j];
  }

  lemma ItemUpToComma(value: string, p: nat, i: nat, j: nat)
    requires IsItem(value, i, j) && i <= p < |value| && value[p] == ',' && forall k :: 0 <= k < p ==> value[k] != ','
    ensures i == 0 && j == p && value[i..j] == value[..p]
  {
  }

  lemma ItemBeyondComma(value: string, p: nat, i: nat, j: nat) returns (i': nat, j': nat)
    requires IsItem(value, i, j) && p < i && value[p] == ','
    ensures j' <= |value| - p - 1 && IsItem(value[p + 1..], i', j') && value[p + 1..][i'..j'] == value[i..j]
  {
    i', j' := i - p - 1, j - p - 1;
    ItemInSuffix(value, p + 1, i, j, i', j');
    SliceOfSuffix(value, p + 1, i, j, i', j');
  }

  lemma {:induction false} ItemIsPart(value: string, i: nat, j: nat, part: string)
    requires IsItem(value, i, j) && part == value[i..j]
    ensures part in Split(value, ",")
    decreases |value|
  {
    match Find(value, ",")
    case None =>
      NoComma(value);
      assert i == 0 && j == |value| && part == value;
    case Some(p) =>
      NoCommaBefore(value, p);
      SplitAtComma(value, p);
      if i <= p {
        ItemUpToComma(value, p, i, j);
      } else {
        var i', j' := ItemBeyondComma(value, p, i, j);
        ItemIsPart(value[p + 1..], i', j', part);
      }
  }

  /** The core of an item, by its places in the text or by those in the item. */
  lemma CoreStrips(value: string, i: nat, j: nat, c: nat, d: nat, a: nat, b: nat)
    requires IsItem(value, i, j) && c < d <= j - i && a == i + c && b == i + d
    ensures HasCore(value, i, a, b, j) <==> StripsTo(value[i..j], c, d)
  {
    var part := value[i..j];
    assert part[c] == value[a] && part[d - 1] == value[b - 1];
    if HasCore(value, i, a, b, j) {
      forall k | 0 <= k < |part| && (k < c || d <= k)
        ensures IsSpace(part[k])
      {
        assert part[k] == value[i + k];
      }
    }
    if StripsTo(part, c, d) {
      forall k | i <= k < j && (k < a || b <= k)
        ensures IsSpace(value[k])
      {
        assert value[k] == part[k - i];
      }
    }
  }

  lemma LoweredIsLower(name: string, text: string)
    ensures IsLowered(name, text) <==> name == Lower(text)
  {
  }

  lemma TokenIsListed(value: string, part: string)
    requires part in Split(value, ",") && Strip(part) != ""
    ensures Lists(value, Lower(Strip(part)))
  {
    var i, j := PartIsItem(value, part);
    var c, d := StripBounds(part);
    CoreIsListed(value, i, j, c, d, Strip(part));
  }

  lemma CoreIsListed(value: string, i: nat, j: nat, c: nat, d: nat, core: string)
    requires IsItem(value, i, j) && c < d <= j - i && StripsTo(value[i..j], c, d)
    requires core == value[i..j][c..d]
    ensures Lists(value, Lower(core))
  {
    var a, b := i + c, i + d;
    CoreStrips(value, i, j, c, d, a, b);
    SliceOfSlice(value, i, j, c, d, a, b);
    LoweredIsLower(Lower(core), value[a..b]);
    assert HasCore(value, i, a, b, j) && IsLowered(Lower(core), value[a..b]);
  }

  lemma PartIsToken(value: string, part: string)
    requires part in Split(value, ",") && Strip(part) != ""
    ensures Lower(Strip(part)) in TokensOf(value)
  {
  }

  lemma ListedIsToken(value: string, name: string, i: nat, a: nat, b: nat, j: nat)
    requires HasCore(value, i, a, b, j) && IsLowered(name, value[a..b])
    ensures name in TokensOf(value)
  {
    var part, c, d := value[i..j], a - i, b - i;
    ItemIsPart(value, i, j, part);
    CoreStrips(value, i, j, c, d, a, b);
    SliceOfSlice(value, i, j, c, d, a, b);
    StripExactly(part, c, d);
    LoweredIsLower(name, value[a..b]);
    PartIsToken(value, part);
  }

  /** The tokens collected from a value are exactly the names it lists. */
  lemma TokensExactly(value: string, name: string)
    ensures name in TokensOf(value) <==> Lists(value, name)
  {
    if name in TokensOf(value) {
      var part :| part in Split(value, ",") && Strip(part) != "" && Lower(Strip(part)) == name;
      TokenIsListed(value, part);
    }
    if Lists(value, name) {
      var i, a, b, j :| HasCore(value, i, a, b, j) && IsLowered(name, value[a..b]);
      ListedIsToken(value, name, i, a, b, j);
    }
  }

  /** A name is nominated when a Connection header lists it. */
  ghost predicate Nominated(headers: HeaderList, name: string) {
    exists h :: h in headers && Lower(h.0) == "connection" && Lists(h.1, name)
  }

  lemma {:induction false} TokensAreNominations(headers: HeaderList, name: string)
    ensures name in ConnectionTokens(headers) <==> Nominated(headers, name)
  {
    if headers != [] {
      var front, last := headers[..|headers| - 1], headers[|headers| - 1];
      TokensAreNominations(front, name);
      TokensExactly(last.1, name);
      assert headers == front + [last];
    }
  }

  /** The names no hop may pass on (section 7.6.1 of RFC 9110), the framing ones and the proxy's own. */
  predicate FixedName(name: string) {
    || name == "connection" || name == "keep-alive" || name == "te" || name == "trailer" || name == "upgrade"
    || name == "transfer-encoding" || name == "content-length"
    || name == "proxy-connection" || name == "proxy-authenticate" || name == "proxy-authorization"
  }

  lemma FixedNamesBlocked(name: string)
    ensures name in HOP_BY_HOP_HEADERS || name in PROXY_ONLY_HEADERS <==> FixedName(name)
  {
  }

  /** The domain on which `Lower` is Python's: Latin-1 names, and Latin-1 values where they nominate. */
  predicate Latin1Names(headers: HeaderList) {
    forall h :: h in headers ==> IsLatin1(h.0) && (Lower(h.0) == "connection" ==> IsLatin1(h.1))
  }

  ghost predicate Removed(headers: HeaderList, name: string) {
    FixedName(Lower(name)) || Nominated(headers, Lower(name))
  }

  /**
   * Filtering keeps the order, and removes every occurrence of the fixed and the nominated names
   * and nothing else.
   */
  lemma FilterRemovesExactly(headers: HeaderList, h: (string, string))
    requires Latin1Names(headers) && IsLatin1(h.0)
    ensures IsSubsequence(Filter(headers), headers)
    ensures multiset(Filter(headers))[h] == if Removed(headers, h.0) then 0 else multiset(headers)[h]
  {
    KeptIsSubsequence(headers, Blocked(headers));
    KeptMultiplicity(headers, Blocked(headers), h);
    TokensAreNominations(headers, Lower(h.0));
    FixedNamesBlocked(Lower(h.0));
  }

  lemma {:induction false} KeptNames(headers: HeaderList, blocked: set<string>)
    ensures forall h :: h in Kept(headers, blocked) <==> h in headers && Lower(h.0) !in blocked
  {
    if headers != [] {
      KeptNames(headers[1..], blocked);
    }
  }

  /** A header survives exactly when its name is neither fixed nor nominated. */
  lemma SurvivesExactly(headers: HeaderList, h: (string, string))
    requires Latin1Names(headers) && IsLatin1(h.0)
    ensures h in Filter(headers) <==> h in headers && !Removed(headers, h.0)
  {
    KeptNames(headers, Blocked(headers));
    TokensAreNominations(headers, Lower(h.0));
    FixedNamesBlocked(Lower(h.0));
  }

  /** Whatever else the headers say, none of the fixed names survives. */
  lemma FixedNamesDropped(headers: HeaderList, h: (string, string))
    requires h in Filter(headers)
    ensures Lower(h.0) !in {"connection", "keep-alive", "te", "trailer", "upgrade", "transfer-encoding",
                            "content-length", "proxy-connection", "proxy-authenticate", "proxy-authorization"}
  {
    KeptNames(headers, Blocked(headers));
    FixedNamesBlocked(Lower(h.0));
  }

  lemma {:induction false} NoneBlocked(headers: HeaderList, blocked: set<string>)
    requires forall h :: h in headers ==> Lower(h.0) !in blocked
    ensures Kept(headers, blocked) == headers
  {
    if headers != [] {
      NoneBlocked(headers[1..], blocked);
    }
  }

  lemma {:induction false} NoConnectionNoTokens(headers: HeaderList)
    requires forall h :: h in headers ==> Lower(h.0) != "connection"
    ensures ConnectionTokens(headers) == {}
  {
    if headers != [] {
      NoConnectionNoTokens(headers[..|headers| - 1]);
    }
  }

  /** No connection header survives, so a second filtering finds nothing nominated and keeps all. */
  lemma FilterIdempotent(headers: HeaderList)
    ensures Filter(Filter(headers)) == Filter(headers)
  {
    var once := Filter(headers);
    KeptNames(headers, Blocked(headers));
    assert "connection" in HOP_BY_HOP_HEADERS;
    NoConnectionNoTokens(once);
    NoneBlocked(once, Blocked(once));
  }

  lemma FilterKeepsValid(headers: HeaderList)
    requires ValidHeaders(headers)
    ensures ValidHeaders(Filter(headers))
  {
    KeptNames(headers, Blocked(headers));
  }
}
