/** The request-chain guard of the block handler: the `X-Request-Chain` header
    lists the nodes a request has visited, joined by " → ". A node refuses a
    chain that already has `MaxHops` pieces or that mentions its own hostname
    anywhere as a substring, and otherwise appends itself.

    Strings are sequences of characters. The chain check calls Go's
    `strings.Split` and `strings.Contains` (which rests on `strings.Index`);
    those are modelled below. `Join` is not used by the handler: it only
    serves the lemmas, as the inverse of `Split`. */
module ChainGuard {

  /** The separator between hops: space, RIGHTWARDS ARROW, space. */
  const Arrow: char := '\U{2192}'
  const Delimiter: string := [' ', Arrow, ' ']

  /** The handler's hop ceiling. */
  const MaxHops: nat := 5

  // ---------------------------------------------------------------------------
  // Occurrences of a pattern

  /** `p` occurs in `s` starting at position `i`. */
  predicate OccursAt(s: string, p: string, i: int) {
    0 <= i && i + |p| <= |s| && s[i..i + |p|] == p
  }

  /** One differing character rules an occurrence out. */
  lemma Mismatch(x: string, p: string, j: int, k: int)
    requires 0 <= j && j + |p| <= |x| && 0 <= k < |p| && x[j + k] != p[k]
    ensures !OccursAt(x, p, j)
  {
    assert x[j..j + |p|][k] == x[j + k];
  }

  /** Text appended after a window does not change what the window holds. */
  lemma OccursExtend(s: string, t: string, p: string, j: int)
    requires 0 <= j && j + |p| <= |s|
    ensures OccursAt(s + t, p, j) <==> OccursAt(s, p, j)
  {
    assert (s + t)[j..j + |p|] == s[j..j + |p|];
  }

  lemma OccursInPrefix(s: string, p: string, n: nat, j: int)
    requires n <= |s|
    requires OccursAt(s[..n], p, j)
    ensures OccursAt(s, p, j) && j + |p| <= n
  {
    assert s[..n][j..j + |p|] == s[j..j + |p|];
  }

  lemma OccursInSuffix(s: string, p: string, n: nat, j: int)
    requires n <= |s|
    requires OccursAt(s[n..], p, j)
    ensures OccursAt(s, p, n + j)
  {
    assert s[n..][j..j + |p|] == s[n + j..n + j + |p|];
  }

  /** Position of the first occurrence of `p` in `s` at or after `start`, or
      -1 when there is none. */
  function IndexFrom(s: string, p: string, start: nat): (r: int)
    ensures r == -1 || start <= r
    ensures r >= 0 ==> OccursAt(s, p, r) && forall j :: start <= j < r ==> !OccursAt(s, p, j)
    ensures r == -1 ==> forall j :: start <= j ==> !OccursAt(s, p, j)
    decreases |s| - start
  {
    if start + |p| > |s| then -1
    else if OccursAt(s, p, start) then start
    else IndexFrom(s, p, start + 1)
  }

  /** Go's `strings.Index`: the first occurrence of `p` in `s`, or -1. */
  function Index(s: string, p: string): (r: int)
    ensures -1 <= r
    ensures r >= 0 ==> OccursAt(s, p, r) && forall j :: 0 <= j < r ==> !OccursAt(s, p, j)
    ensures r == -1 ==> forall j :: !OccursAt(s, p, j)
  {
    IndexFrom(s, p, 0)
  }

  /** `Index` is pinned down by an occurrence with none before it. */
  lemma IndexIs(x: string, p: string, k: int)
    requires OccursAt(x, p, k)
    requires forall j :: 0 <= j < k ==> !OccursAt(x, p, j)
    ensures Index(x, p) == k
  {
  }

  /** Go's `strings.Contains`: `p` is a substring of `s`. */
  function Contains(s: string, p: string): (b: bool)
    ensures b <==> exists i :: OccursAt(s, p, i)
  {
    Index(s, p) >= 0
  }

  // ---------------------------------------------------------------------------
  // Split and Join

  /** Go's `strings.Split` for a non-empty separator: the pieces between the
      successive leftmost occurrences of `sep`. */
  function Split(s: string, sep: string): (r: seq<string>)
    requires |sep| > 0
    ensures |r| >= 1
    decreases |s|
  {
    var i := Index(s, sep);
    if i < 0 then [s] else [s[..i]] + Split(s[i + |sep|..], sep)
  }

  /** One step of `Split` when a separator is found. */
  lemma SplitFound(s: string, sep: string, i: nat)
    requires |sep| > 0 && Index(s, sep) == i
    ensures Split(s, sep) == [s[..i]] + Split(s[i + |sep|..], sep)
  {
  }

  /** `Split` of a string without the separator. */
  lemma SplitNotFound(s: string, sep: string)
    requires |sep| > 0 && Index(s, sep) == -1
    ensures Split(s, sep) == [s]
  {
  }

  /** No piece of a split contains the separator. */
  lemma {:induction false} PiecesLackSeparator(s: string, sep: string)
    requires |sep| > 0
    ensures forall k :: 0 <= k < |Split(s, sep)| ==> !Contains(Split(s, sep)[k], sep)
    decreases |s|
  {
    var i := Index(s, sep);
    if i >= 0 {
      var head := s[..i];
      var rest := s[i + |sep|..];
      assert !Contains(head, sep) by {
        if Contains(head, sep) {
          var j :| OccursAt(head, sep, j);
          OccursInPrefix(s, sep, i, j);
        }
      }
      PiecesLackSeparator(rest, sep);
      SplitFound(s, sep, i);
    }
  }

  /** Joins pieces with a separator, as Go's `strings.Join` would; the inverse
      of `Split` in the lemmas below. */
  function Join(parts: seq<string>, sep: string): string {
    if |parts| == 0 then ""
    else if |parts| == 1 then parts[0]
    else parts[0] + sep + Join(parts[1..], sep)
  }

  lemma JoinCons(a: string, parts: seq<string>, sep: string)
    requires |parts| >= 1
    ensures Join([a] + parts, sep) == a + sep + Join(parts, sep)
  {
    assert ([a] + parts)[1..] == parts;
  }

  /** Joining the pieces of a split gives back the original string. */
  lemma {:induction false} JoinSplit(s: string, sep: string)
    requires |sep| > 0
    ensures Join(Split(s, sep), sep) == s
    decreases |s|
  {
    var i := Index(s, sep);
    if i >= 0 {
      var rest := s[i + |sep|..];
      JoinSplit(rest, sep);
      SplitFound(s, sep, i);
      JoinCons(s[..i], Split(rest, sep), sep);
      assert s[i..i + |sep|] == sep;
      assert s == s[..i] + sep + rest;
    } else {
      SplitNotFound(s, sep);
    }
  }

  /** Every piece of a split is a substring of the split string. */
  lemma {:induction false} PieceIsSubstring(s: string, sep: string, h: string)
    requires |sep| > 0
    requires h in Split(s, sep)
    ensures Contains(s, h)
    decreases |s|
  {
    var i := Index(s, sep);
    if i < 0 {
      SplitNotFound(s, sep);
      assert s[..|s|] == s;
      ContainsPrefix(s, |s|);
    } else {
      var off := i + |sep|;
      SplitFound(s, sep, i);
      if h == s[..i] {
        ContainsPrefix(s, i);
      } else {
        PieceIsSubstring(s[off..], sep, h);
        ContainsInSuffix(s, h, off);
      }
    }
  }

  /** Every prefix of a string occurs in it. */
  lemma ContainsPrefix(s: string, i: nat)
    requires i <= |s|
    ensures Contains(s, s[..i])
  {
    assert s[0..i] == s[..i];
    assert OccursAt(s, s[..i], 0);
  }

  /** What a suffix of a string contains, the string contains. */
  lemma ContainsInSuffix(s: string, p: string, n: nat)
    requires n <= |s|
    requires Contains(s[n..], p)
    ensures Contains(s, p)
  {
    OccursInSuffix(s, p, n, Index(s[n..], p));
  }


  // ---------------------------------------------------------------------------
  // Hops without the arrow character

  /** A hop name that does not contain the arrow character. Hostnames that
      follow RFC 1123 never do; the hostname the node reports is not checked
      against that rule. */
  predicate ArrowFree(h: string) {
    Arrow !in h
  }

  lemma ArrowFreeHasNoDelimiter(h: string)
    requires ArrowFree(h)
    ensures Index(h, Delimiter) == -1
    ensures Split(h, Delimiter) == [h]
  {
    forall j | 0 <= j && j + 3 <= |h|
      ensures !OccursAt(h, Delimiter, j)
    {
      assert h[j + 1] != Delimiter[1];
      Mismatch(h, Delimiter, j, 1);
    }
    SplitNotFound(h, Delimiter);
  }

  /** Splitting `a → t` with an arrow-free `a` peels `a` off first. */
  lemma SplitAfterHop(a: string, t: string)
    requires ArrowFree(a)
    ensures Split(a + Delimiter + t, Delimiter) == [a] + Split(t, Delimiter)
  {
    var x := a + Delimiter + t;
    var n := |a|;
    assert x[n..n + 3] == Delimiter;
    forall j | 0 <= j < n
      ensures !OccursAt(x, Delimiter, j)
    {
      if j + 1 < n {
        assert x[j + 1] == a[j + 1] != Delimiter[1];
      } else {
        assert x[j + 1] == Delimiter[0] != Delimiter[1];
      }
      Mismatch(x, Delimiter, j, 1);
    }
    IndexIs(x, Delimiter, n);
    SplitFound(x, Delimiter, n);
    assert x[..n] == a;
    assert x[n + 3..] == t;
  }

  /** Arrow-free hops survive a join followed by a split unchanged. */
  lemma {:induction false} SplitJoin(hops: seq<string>)
    requires |hops| >= 1
    requires forall k :: 0 <= k < |hops| ==> ArrowFree(hops[k])
    ensures Split(Join(hops, Delimiter), Delimiter) == hops
  {
    if |hops| == 1 {
      ArrowFreeHasNoDelimiter(hops[0]);
    } else {
      SplitJoin(hops[1..]);
      SplitAfterHop(hops[0], Join(hops[1..], Delimiter));
      assert hops == [hops[0]] + hops[1..];
    }
  }

  lemma {:induction false} JoinSnoc(hops: seq<string>, h: string, sep: string)
    requires |hops| >= 1
    ensures Join(hops + [h], sep) == Join(hops, sep) + sep + h
  {
    if |hops| > 1 {
      JoinSnoc(hops[1..], h, sep);
      assert (hops + [h])[1..] == hops[1..] + [h];
    }
  }

  // ---------------------------------------------------------------------------
  // The guard

  /** Outcome of the guard: refusal, or the chain to pass on. */
  datatype GuardResult = Rejected | Extended(chain: string)

  /** The chain check at the top of the block handler. */
  function ExtendChain(header: string, hostname: string): (r: GuardResult)
    ensures header == "" ==> r == Extended(hostname)
    ensures header != "" ==>
      (r.Rejected? <==>
         |Split(header, Delimiter)| >= MaxHops || exists i :: OccursAt(header, hostname, i))
    ensures r.Extended? && header != "" ==> r.chain == header + Delimiter + hostname
  {
    if header == "" then Extended(hostname)
    else if |Split(header, Delimiter)| >= MaxHops || Contains(header, hostname) then Rejected
    else Extended(header + Delimiter + hostname)
  }

  /** A node named anywhere in the hop list refuses the request (loop detection). */
  lemma LoopRejected(header: string, hostname: string)
    requires header != ""
    requires hostname in Split(header, Delimiter)
    ensures ExtendChain(header, hostname) == Rejected
  {
    PieceIsSubstring(header, Delimiter, hostname);
  }

  /** A chain of well-formed hops that passes the guard comes out with the
      node's hostname as one extra, last hop. */
  lemma ExtendAddsOneHop(hops: seq<string>, hostname: string)
    requires |hops| >= 1 && Join(hops, Delimiter) != ""
    requires forall k :: 0 <= k < |hops| ==> ArrowFree(hops[k])
    requires ArrowFree(hostname)
    ensures ExtendChain(Join(hops, Delimiter), hostname).Extended? ==>
      Split(ExtendChain(Join(hops, Delimiter), hostname).chain, Delimiter) == hops + [hostname]
    ensures |hops| >= MaxHops ==> ExtendChain(Join(hops, Delimiter), hostname) == Rejected
  {
    var header := Join(hops, Delimiter);
    SplitJoin(hops);
    if ExtendChain(header, hostname).Extended? {
      SplitAppendedHop(hops, hostname);
    }
  }

  /** Appending the delimiter and one more arrow-free hop to a joined chain of
      arrow-free hops splits back into the longer hop list. */
  lemma SplitAppendedHop(hops: seq<string>, hostname: string)
    requires |hops| >= 1
    requires forall k :: 0 <= k < |hops| ==> ArrowFree(hops[k])
    requires ArrowFree(hostname)
    ensures Split(Join(hops, Delimiter) + Delimiter + hostname, Delimiter) == hops + [hostname]
  {
    JoinSnoc(hops, hostname, Delimiter);
    var longer := hops + [hostname];
    assert forall k :: 0 <= k < |longer| ==> ArrowFree(longer[k]);
    SplitJoin(longer);
  }

  // ---------------------------------------------------------------------------
  // One more piece, for any header

  /** A separator inside `s` is still the first one once more text follows. */
  lemma FirstDelimiterKept(s: string, t: string)
    requires Index(s, Delimiter) >= 0
    ensures Index(s + t, Delimiter) == Index(s, Delimiter)
  {
    var x := s + t;
    var i := Index(s, Delimiter);
    OccursExtend(s, t, Delimiter, i);
    forall j | 0 <= j < i ensures !OccursAt(x, Delimiter, j) {
      OccursExtend(s, t, Delimiter, j);
    }
    IndexIs(x, Delimiter, i);
  }

  /** `→ h` holds no delimiter when `h` is arrow-free. */
  lemma ArrowThenNameHasNoDelimiter(h: string)
    requires ArrowFree(h)
    ensures Split([Arrow, ' '] + h, Delimiter) == [[Arrow, ' '] + h]
  {
    var tail := [Arrow, ' '] + h;
    forall q | 0 <= q && q + 3 <= |tail| ensures !OccursAt(tail, Delimiter, q) {
      if q == 0 {
        assert tail[0] == Arrow != Delimiter[0];
        Mismatch(tail, Delimiter, q, 0);
      } else {
        assert tail[q + 1] == h[q - 1] != Delimiter[1];
        Mismatch(tail, Delimiter, q, 1);
      }
    }
    SplitNotFound(tail, Delimiter);
  }

  /** No delimiter in `s` means none in `s → h` that starts early in `s`. */
  lemma NoEarlyDelimiter(s: string, h: string, j: int)
    requires Index(s, Delimiter) == -1
    requires 0 <= j && j + 3 <= |s|
    ensures !OccursAt(s + Delimiter + h, Delimiter, j)
  {
    assert s + Delimiter + h == s + (Delimiter + h);
    OccursExtend(s, Delimiter + h, Delimiter, j);
  }

  /** A string that ends in a blank and an arrow: the first delimiter of
      `s → h` straddles the seam, two characters before the end of `s`. */
  lemma DelimiterAtSeam(s: string, h: string)
    requires Index(s, Delimiter) == -1
    requires |s| >= 2 && s[|s| - 2] == ' ' && s[|s| - 1] == Arrow
    ensures Index(s + Delimiter + h, Delimiter) == |s| - 2
  {
    var x := s + Delimiter + h;
    var n := |s|;
    forall j | 0 <= j < n - 2 ensures !OccursAt(x, Delimiter, j) {
      NoEarlyDelimiter(s, h, j);
    }
    assert x[n - 2..n + 1] == Delimiter;
    IndexIs(x, Delimiter, n - 2);
  }

  /** Otherwise the first delimiter of `s → h` is the one appended. */
  lemma DelimiterAfter(s: string, h: string)
    requires Index(s, Delimiter) == -1
    requires !(|s| >= 2 && s[|s| - 2] == ' ' && s[|s| - 1] == Arrow)
    ensures Index(s + Delimiter + h, Delimiter) == |s|
  {
    var x := s + Delimiter + h;
    var n := |s|;
    forall j | 0 <= j < n ensures !OccursAt(x, Delimiter, j) {
      if j + 3 <= n {
        NoEarlyDelimiter(s, h, j);
      } else if j == n - 1 {
        assert x[n] == Delimiter[0] != Delimiter[1];
        Mismatch(x, Delimiter, j, 1);
      } else if s[n - 2] != Delimiter[0] {
        assert x[n - 2] == s[n - 2];
        Mismatch(x, Delimiter, j, 0);
      } else {
        assert x[n - 1] == s[n - 1] != Delimiter[1];
        Mismatch(x, Delimiter, j, 1);
      }
    }
    assert x[n..n + 3] == Delimiter;
    IndexIs(x, Delimiter, n);
  }

  /** `s → h` for a delimiter-free `s` ending in a blank and an arrow splits
      in two: the seam delimiter, then `→ h` whole. */
  lemma TwoPiecesAtSeam(s: string, h: string)
    requires ArrowFree(h)
    requires Index(s, Delimiter) == -1
    requires |s| >= 2 && s[|s| - 2] == ' ' && s[|s| - 1] == Arrow
    ensures |Split(s + Delimiter + h, Delimiter)| == 2
  {
    var x := s + Delimiter + h;
    var n := |s|;
    DelimiterAtSeam(s, h);
    SplitFound(x, Delimiter, n - 2);
    assert x[n + 1..] == [Arrow, ' '] + h;
    ArrowThenNameHasNoDelimiter(h);
  }

  /** `s → h` for any other delimiter-free `s` splits into `s` and `h`. */
  lemma TwoPiecesAfter(s: string, h: string)
    requires ArrowFree(h)
    requires Index(s, Delimiter) == -1
    requires !(|s| >= 2 && s[|s| - 2] == ' ' && s[|s| - 1] == Arrow)
    ensures |Split(s + Delimiter + h, Delimiter)| == 2
  {
    var x := s + Delimiter + h;
    var n := |s|;
    DelimiterAfter(s, h);
    SplitFound(x, Delimiter, n);
    assert x[n + 3..] == h;
    ArrowFreeHasNoDelimiter(h);
  }

  /** Splitting `s → h` when `s` has a delimiter at `i`: the first piece is
      that of `s`, and the rest is the split of what follows in `s`, then `→ h`. */
  lemma SplitStepAppended(s: string, h: string, i: nat)
    requires Index(s, Delimiter) == i
    ensures Split(s + Delimiter + h, Delimiter)
            == [s[..i]] + Split(s[i + 3..] + Delimiter + h, Delimiter)
  {
    var x := s + Delimiter + h;
    assert x == s + (Delimiter + h);
    FirstDelimiterKept(s, Delimiter + h);
    AppendedSlices(s, h, i);
    SplitFound(x, Delimiter, i);
  }

  /** Cutting `s → h` at a delimiter that lies inside `s`. */
  lemma AppendedSlices(s: string, h: string, i: nat)
    requires i + 3 <= |s|
    ensures (s + Delimiter + h)[..i] == s[..i]
    ensures (s + Delimiter + h)[i + 3..] == s[i + 3..] + Delimiter + h
  {
  }

  /** A delimiter-free string gains exactly one piece from `→ h`. */
  lemma OneMorePieceBase(s: string, h: string)
    requires ArrowFree(h)
    requires Index(s, Delimiter) == -1
    ensures |Split(s + Delimiter + h, Delimiter)| == |Split(s, Delimiter)| + 1
  {
    SplitNotFound(s, Delimiter);
    var n := |s|;
    if n >= 2 && s[n - 2] == ' ' && s[n - 1] == Arrow {
      TwoPiecesAtSeam(s, h);
    } else {
      TwoPiecesAfter(s, h);
    }
  }

  /** The step of the induction: if what follows the first delimiter of `s`
      gains one piece from `→ h`, so does `s`. */
  lemma OneMorePieceStep(s: string, h: string, i: nat)
    requires Index(s, Delimiter) == i
    requires |Split(s[i + 3..] + Delimiter + h, Delimiter)| == |Split(s[i + 3..], Delimiter)| + 1
    ensures |Split(s + Delimiter + h, Delimiter)| == |Split(s, Delimiter)| + 1
  {
    SplitStepAppended(s, h, i);
    SplitFound(s, Delimiter, i);
  }

  /** Appending the delimiter and an arrow-free name to any string yields
      exactly one more piece, whatever the string holds. */
  lemma {:induction false} OneMorePiece(s: string, h: string)
    requires ArrowFree(h)
    ensures |Split(s + Delimiter + h, Delimiter)| == |Split(s, Delimiter)| + 1
    decreases |s|
  {
    var i := Index(s, Delimiter);
    if i >= 0 {
      OneMorePiece(s[i + 3..], h);
      OneMorePieceStep(s, h, i);
    } else {
      OneMorePieceBase(s, h);
    }
  }

  /** Whatever header a client sends, an arrow-free hostname that passes the
      guard adds exactly one hop to the count the guard compares with
      `MaxHops`. */
  lemma AcceptedGainsOnePiece(header: string, hostname: string)
    requires ArrowFree(hostname)
    requires ExtendChain(header, hostname).Extended?
    ensures header == "" ==> Split(ExtendChain(header, hostname).chain, Delimiter) == [hostname]
    ensures header != "" ==>
      |Split(ExtendChain(header, hostname).chain, Delimiter)| == |Split(header, Delimiter)| + 1
  {
    if header == "" {
      ArrowFreeHasNoDelimiter(hostname);
    } else {
      OneMorePiece(header, hostname);
    }
  }

  // ---------------------------------------------------------------------------
  // Particular chains

  /** Substring semantics: a hostname that is only a prefix of another hop
      still counts as present. */
  lemma PrefixOfHopRejected()
    ensures "node1" !in Split("node10" + Delimiter + "x", Delimiter)
    ensures ExtendChain("node10" + Delimiter + "x", "node1") == Rejected
  {
    var hops := ["node10", "x"];
    assert Join(hops, Delimiter) == "node10" + Delimiter + "x";
    SplitJoin(hops);
    assert OccursAt("node10" + Delimiter + "x", "node1", 0);
  }

  /** An empty hostname occurs in every string, so it refuses every
      non-empty chain. */
  lemma EmptyHostnameRejects(header: string)
    requires header != ""
    ensures ExtendChain(header, "") == Rejected
  {
    assert OccursAt(header, "", 0);
  }

  /** A revisited node: `nodeA → nodeB → nodeA` arriving at `nodeA`. */
  lemma RevisitRejected()
    ensures ExtendChain("nodeA" + Delimiter + "nodeB" + Delimiter + "nodeA", "nodeA") == Rejected
  {
    assert OccursAt("nodeA" + Delimiter + "nodeB" + Delimiter + "nodeA", "nodeA", 0);
  }

  /** Five hops reach the ceiling even when the node is not among them. */
  lemma FiveHopsRejected()
    ensures ExtendChain(Join(["a", "b", "c", "d", "e"], Delimiter), "f") == Rejected
  {
    var hops := ["a", "b", "c", "d", "e"];
    forall k | 0 <= k < |hops| ensures ArrowFree(hops[k]) { }
    assert Join(hops, Delimiter) != "" by {
      assert Join(hops, Delimiter) == "a" + Delimiter + Join(hops[1..], Delimiter);
    }
    ExtendAddsOneHop(hops, "f");
  }

  /** With an arrow in the hostname the extra hop is not guaranteed: a chain
      ending in an arrow, extended by a hostname starting with one, gains two
      pieces. */
  lemma ArrowHostnameAddsTwoHops()
    ensures ExtendChain("a " + [Arrow], [Arrow, ' '] + "b").Extended?
    ensures |Split(ExtendChain("a " + [Arrow], [Arrow, ' '] + "b").chain, Delimiter)|
            == |Split("a " + [Arrow], Delimiter)| + 2
  {
    var header := "a " + [Arrow];
    var host := [Arrow, ' '] + "b";
    forall j | 0 <= j && j + 3 <= |header| ensures !OccursAt(header, Delimiter, j) {
      assert header[0] == 'a' != Delimiter[0];
      Mismatch(header, Delimiter, j, 0);
    }
    SplitNotFound(header, Delimiter);
    forall j | 0 <= j && j + |host| <= |header| ensures !OccursAt(header, host, j) {
      assert header[0] == 'a' != host[0];
      Mismatch(header, host, j, 0);
    }
    assert !Contains(header, host);
    var tail := [Arrow] + Delimiter + "b";
    assert header + Delimiter + host == "a" + Delimiter + tail;
    SplitAfterHop("a", tail);
    assert tail[1..4] == Delimiter;
    assert tail[0] != Delimiter[0];
    Mismatch(tail, Delimiter, 0, 0);
    IndexIs(tail, Delimiter, 1);
    SplitFound(tail, Delimiter, 1);
    assert tail[4..] == "b";
    ArrowFreeHasNoDelimiter("b");
  }
}
