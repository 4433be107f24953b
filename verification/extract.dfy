/**
 * The URL scanner of internal/extract/extract.go: it walks a byte buffer left
 * to right, finds each literal "https://", extends the match greedily while
 * the bytes pass a fixed allowlist, and emits the matches in order.
 *
 * `IndexHttps` and `Urls` are the source's loops; `NextHttps`, `MatchEnd` and
 * `Spans` are the reference definitions they are proved against, and the
 * lemmas at the end state what the scan promises about every buffer.
 */
module Extract {
  import opened Wrappers

  newtype byte = x: int | 0 <= x < 0x100

  /** The byte read as a (Latin-1) character, to compare it with literals. */
  function Char(c: byte): char
  {
    (c as int) as char
  }

  /** The eight bytes of the only recognised scheme prefix, "https://". */
  const Https: seq<byte> := [0x68, 0x74, 0x74, 0x70, 0x73, 0x3A, 0x2F, 0x2F]

  predicate IsAsciiLetter(c: byte)
  {
    'a' <= Char(c) <= 'z' || 'A' <= Char(c) <= 'Z'
  }

  predicate IsAsciiDigit(c: byte)
  {
    '0' <= Char(c) <= '9'
  }

  /** The RFC 3986 punctuation of the allowlist, plus '%' and '|'. */
  const UrlPunctuation: string := "-._~:/?#[]@!$&()*+,;=%|"

  /** Bytes the source rejects explicitly before looking at the allowlist. */
  const Terminators: string := " \"'<>`\\"

  /**
   * allowedURLByte: whether a byte may continue a URL. The source first
   * rejects controls, DEL and a few terminators, then accepts letters,
   * digits and the punctuation list, and rejects everything else.
   */
  predicate AllowedUrlByte(c: byte)
  {
    if c < 0x20 || c == 0x7F then false
    else if Char(c) in Terminators then false
    else if IsAsciiLetter(c) || IsAsciiDigit(c) then true
    else if Char(c) in "-._~:/?#[]@!$&()*+,;=" then true
    else Char(c) in "%|"
  }

  /**
   * The allowlist in one sentence: ASCII letters, ASCII digits and the URL
   * punctuation, and nothing else; in particular no control byte, no DEL, no
   * byte from 0x80 up and none of the terminators.
   */
  lemma AllowlistExact(c: byte)
    ensures AllowedUrlByte(c) <==> IsAsciiLetter(c) || IsAsciiDigit(c) || Char(c) in UrlPunctuation
    ensures c < 0x20 || c == 0x7F || c >= 0x80 || Char(c) in Terminators ==> !AllowedUrlByte(c)
  {
  }

  /** Every byte of the scheme prefix is itself allowed. */
  lemma HttpsBytesAllowed()
    ensures forall k :: 0 <= k < |Https| ==> AllowedUrlByte(Https[k])
  {
    assert IsAsciiLetter(0x68) && IsAsciiLetter(0x74) && IsAsciiLetter(0x70) && IsAsciiLetter(0x73);
    assert Char(0x3A) !in Terminators && Char(0x2F) !in Terminators;
    assert Char(0x3A) == "-._~:/?#[]@!$&()*+,;="[4] && Char(0x2F) == "-._~:/?#[]@!$&()*+,;="[5];
  }

  /** "https://" occurs in `b` at offset `k`. */
  predicate HttpsAt(b: seq<byte>, k: nat)
  {
    k + 8 <= |b| && b[k..k + 8] == Https
  }

  // ---------------------------------------------------------------------
  // Reference definitions
  // ---------------------------------------------------------------------

  /** The first occurrence of "https://" at or after `from`, if any. */
  function NextHttps(b: seq<byte>, from: nat): (r: Option<nat>)
    decreases |b| - from
    ensures r.Some? ==> from <= r.value && HttpsAt(b, r.value)
    ensures r.Some? ==> forall k: nat :: from <= k < r.value ==> !HttpsAt(b, k)
    ensures r.None? ==> forall k: nat :: from <= k ==> !HttpsAt(b, k)
  {
    if from + 8 > |b| then None
    else if HttpsAt(b, from) then Some(from)
    else NextHttps(b, from + 1)
  }

  /** Where the greedy allowlist run starting at `j` stops. */
  function MatchEnd(b: seq<byte>, j: nat): (e: nat)
    requires j <= |b|
    decreases |b| - j
    ensures j <= e <= |b|
    ensures e == |b| || !AllowedUrlByte(b[e])
  {
    if j == |b| || !AllowedUrlByte(b[j]) then j else MatchEnd(b, j + 1)
  }

  /** Every byte of the greedy run is allowed. */
  lemma {:induction false} MatchEndAllowed(b: seq<byte>, j: nat)
    requires j <= |b|
    decreases |b| - j
    ensures forall k :: j <= k < MatchEnd(b, j) ==> AllowedUrlByte(b[k])
  {
    if j < |b| && AllowedUrlByte(b[j]) {
      MatchEndAllowed(b, j + 1);
    }
  }

  /** A run of allowed bytes covering offsets j..m-1 reaches at least m. */
  lemma MatchEndReaches(b: seq<byte>, j: nat, m: nat)
    requires j <= m <= |b|
    requires forall k :: j <= k < m ==> AllowedUrlByte(b[k])
    ensures MatchEnd(b, j) >= m
  {
  }

  /** A match at a "https://" extends over the whole prefix. */
  lemma PrefixWithinMatch(b: seq<byte>, j: nat)
    requires HttpsAt(b, j)
    ensures MatchEnd(b, j) >= j + 8
  {
    HttpsBytesAllowed();
    forall k | j <= k < j + 8 ensures AllowedUrlByte(b[k]) {
      assert b[k] == b[j..j + 8][k - j];
    }
    MatchEndReaches(b, j, j + 8);
  }

  /** The greedy run from any offset inside it stops where the whole run stops. */
  lemma {:induction false} MatchEndFrom(b: seq<byte>, j: nat, k: nat)
    requires j <= |b| && j <= k <= MatchEnd(b, j)
    decreases k - j
    ensures MatchEnd(b, k) == MatchEnd(b, j)
  {
    if j < k {
      MatchEndFrom(b, j + 1, k);
    }
  }

  /** A captured URL: the offsets [lo, hi) of the buffer. */
  datatype Span = Span(lo: nat, hi: nat)

  /**
   * What a captured URL is: it starts with "https://", has length at least
   * eight, consists of allowed bytes only, and stops at the end of the buffer
   * or just before a byte that is not allowed.
   */
  predicate IsUrlMatch(b: seq<byte>, s: Span)
  {
    && s.lo + 8 <= s.hi <= |b|
    && HttpsAt(b, s.lo)
    && (forall k :: s.lo <= k < s.hi ==> AllowedUrlByte(b[k]))
    && (s.hi == |b| || !AllowedUrlByte(b[s.hi]))
  }

  /**
   * The spans the scan captures from offset `from` on: find the next prefix,
   * take the maximal allowed run, resume at its end. The source also has a
   * branch for a run of length zero, which never applies since the prefix
   * bytes are allowed (PrefixWithinMatch).
   */
  function Spans(b: seq<byte>, from: nat): (r: seq<Span>)
    decreases |b| - from
    ensures forall s <- r :: from <= s.lo && s.lo + 8 <= s.hi <= |b|
  {
    if from >= |b| then []
    else match NextHttps(b, from)
      case None => []
      case Some(j) =>
        PrefixWithinMatch(b, j);
        [Span(j, MatchEnd(b, j))] + Spans(b, MatchEnd(b, j))
  }

  /** One step of the scan: the span at the next prefix, then the rest from its end. */
  lemma SpansStep(b: seq<byte>, from: nat, j: nat)
    requires from < |b| && NextHttps(b, from) == Some(j)
    ensures MatchEnd(b, j) >= j + 8
    ensures Spans(b, from) == [Span(j, MatchEnd(b, j))] + Spans(b, MatchEnd(b, j))
  {
    PrefixWithinMatch(b, j);
  }

  /**
   * Every captured span is a URL match: "https://" at its start, allowed
   * bytes throughout, and a stop at the end of the buffer or a byte that is
   * not allowed.
   */
  lemma {:induction false} SpansMatch(b: seq<byte>, from: nat)
    decreases |b| - from
    ensures forall s <- Spans(b, from) :: IsUrlMatch(b, s)
  {
    if from < |b| && NextHttps(b, from).Some? {
      var j := NextHttps(b, from).value;
      SpansStep(b, from, j);
      MatchEndAllowed(b, j);
      SpansMatch(b, MatchEnd(b, j));
    }
  }

  /** The captured spans come in increasing order and do not overlap. */
  lemma {:induction false} SpansOrdered(b: seq<byte>, from: nat)
    decreases |b| - from
    ensures forall i, k :: 0 <= i < k < |Spans(b, from)| ==> Spans(b, from)[i].hi <= Spans(b, from)[k].lo
  {
    if from < |b| && NextHttps(b, from).Some? {
      var j := NextHttps(b, from).value;
      var e := MatchEnd(b, j);
      SpansStep(b, from, j);
      SpansOrdered(b, e);
      var r := Spans(b, from);
      var t := Spans(b, e);
      forall i, k | 0 <= i < k < |r| ensures r[i].hi <= r[k].lo {
        assert r[k] == t[k - 1];
        if i > 0 {
          assert r[i] == t[i - 1];
        } else {
          assert t[k - 1] in t;
        }
      }
    }
  }

  /**
   * The invariant of the loop in Urls survives emitting the bytes of the span
   * at `j` and resuming the scan at its end.
   */
  lemma ScanStep(b: seq<byte>, from: nat, j: nat, out: seq<seq<byte>>)
    requires from < |b| && NextHttps(b, from) == Some(j)
    requires out + Slices(b, Spans(b, from)) == Slices(b, Spans(b, 0))
    ensures MatchEnd(b, j) >= j + 8
    ensures (out + [b[j..MatchEnd(b, j)]]) + Slices(b, Spans(b, MatchEnd(b, j))) == Slices(b, Spans(b, 0))
  {
    SpansStep(b, from, j);
    var e := MatchEnd(b, j);
    var rest := Spans(b, e);
    SlicesCons(b, Span(j, e), rest);
    assert (out + [b[j..e]]) + Slices(b, rest) == out + ([b[j..e]] + Slices(b, rest));
  }

  lemma SlicesCons(b: seq<byte>, s: Span, ss: seq<Span>)
    requires s.lo <= s.hi <= |b| && forall t <- ss :: t.lo <= t.hi <= |b|
    ensures Slices(b, [s] + ss) == [b[s.lo..s.hi]] + Slices(b, ss)
  {
    assert ([s] + ss)[1..] == ss;
  }

  /** The bytes of each span, in order. */
  function Slices(b: seq<byte>, ss: seq<Span>): (r: seq<seq<byte>>)
    requires forall s <- ss :: s.lo <= s.hi <= |b|
    ensures |r| == |ss|
    ensures forall i :: 0 <= i < |ss| ==> r[i] == b[ss[i].lo..ss[i].hi]
  {
    if ss == [] then [] else [b[ss[0].lo..ss[0].hi]] + Slices(b, ss[1..])
  }

  // ---------------------------------------------------------------------
  // The source's loops
  // ---------------------------------------------------------------------

  /** indexHTTP: the smallest i >= from where "https://" starts, or -1. */
  method IndexHttps(b: seq<byte>, from: nat) returns (j: int)
    ensures j == -1 || (from <= j && HttpsAt(b, j))
    ensures j != -1 ==> forall k: nat :: from <= k < j ==> !HttpsAt(b, k)
    ensures j == -1 ==> forall k: nat :: from <= k ==> !HttpsAt(b, k)
  {
    var i := from;
    while i < |b|
      invariant from <= i
      invariant forall k: nat :: from <= k < i ==> !HttpsAt(b, k)
    {
      if b[i] != 0x68 {
        i := i + 1;
        continue;
      }
      if i + 7 < |b| && b[i..i + 8] == Https {
        return i;
      }
      i := i + 1;
    }
    return -1;
  }

  /**
   * UrLs, from the byte buffer on: the captured URLs, in order of their
   * offsets in the buffer.
   */
  method Urls(data: seq<byte>) returns (out: seq<seq<byte>>)
    ensures out == Slices(data, Spans(data, 0))
    ensures forall u <- out :: UrlShaped(u)
  {
    out := [];
    var i := 0;
    while i < |data|
      invariant i <= |data|
      invariant out + Slices(data, Spans(data, i)) == Slices(data, Spans(data, 0))
    {
      var j := IndexHttps(data, i);
      if j == -1 {
        NextHttpsIsIndex(data, i, j);
        break;
      }
      NextHttpsIsIndex(data, i, j);
      var end := j;
      while end < |data| && AllowedUrlByte(data[end])
        invariant j <= end <= |data|
        invariant MatchEnd(data, end) == MatchEnd(data, j)
      {
        end := end + 1;
      }
      // The prefix bytes are allowed, so the source's retry for an empty
      // run (`end == j`) is never taken.
      ScanStep(data, i, j, out);
      assert end >= j + 8;
      out := out + [data[j..end]];
      i := end;
    }
    UrlShapes(data, 0);
  }

  /** What IndexHttps returns is what NextHttps describes. */
  lemma NextHttpsIsIndex(b: seq<byte>, from: nat, j: int)
    requires j == -1 || (from <= j && HttpsAt(b, j))
    requires j != -1 ==> forall k: nat :: from <= k < j ==> !HttpsAt(b, k)
    requires j == -1 ==> forall k: nat :: from <= k ==> !HttpsAt(b, k)
    ensures j == -1 ==> NextHttps(b, from).None? && Spans(b, from) == []
    ensures j != -1 ==> NextHttps(b, from) == Some(j)
  {
    var n := NextHttps(b, from);
    if j != -1 && n.Some? {
      assert !(n.value < j) && !(j < n.value);
    }
  }

  // ---------------------------------------------------------------------
  // What the scan promises
  // ---------------------------------------------------------------------

  /** What every emitted URL looks like: "https://" followed by allowed bytes only. */
  predicate UrlShaped(u: seq<byte>)
  {
    |u| >= 8 && u[..8] == Https && forall k :: 0 <= k < |u| ==> AllowedUrlByte(u[k])
  }

  /** The bytes of a captured span have the shape of a URL. */
  lemma SpanShaped(b: seq<byte>, s: Span)
    requires IsUrlMatch(b, s)
    ensures UrlShaped(b[s.lo..s.hi])
  {
    var u := b[s.lo..s.hi];
    assert u[..8] == b[s.lo..s.lo + 8];
    forall k | 0 <= k < |u| ensures AllowedUrlByte(u[k]) {
      assert u[k] == b[s.lo + k];
    }
  }

  /** Every captured URL starts with "https://" and consists of allowed bytes. */
  lemma UrlShapes(b: seq<byte>, from: nat)
    ensures forall u <- Slices(b, Spans(b, from)) :: UrlShaped(u)
  {
    var ss := Spans(b, from);
    SpansMatch(b, from);
    var r := Slices(b, ss);
    forall i | 0 <= i < |r| ensures UrlShaped(r[i]) {
      assert ss[i] in ss;
      SpanShaped(b, ss[i]);
    }
  }

  /** Span `s` holds the whole of an occurrence of "https://" at offset `k`. */
  predicate Covers(s: Span, k: nat)
  {
    s.lo <= k && k + 8 <= s.hi
  }

  /** Every occurrence of "https://" at or after `from` lies inside a captured span. */
  lemma {:induction false} OccurrenceCovered(b: seq<byte>, from: nat, k: nat)
    requires from <= k && HttpsAt(b, k)
    decreases |b| - from
    ensures exists i :: 0 <= i < |Spans(b, from)| && Covers(Spans(b, from)[i], k)
  {
    var j := NextHttps(b, from).value;
    var e := MatchEnd(b, j);
    SpansStep(b, from, j);
    var r := Spans(b, from);
    if k < e {
      MatchEndFrom(b, j, k);
      PrefixWithinMatch(b, k);
      assert Covers(r[0], k);
    } else {
      OccurrenceCovered(b, e, k);
      var i :| 0 <= i < |Spans(b, e)| && Covers(Spans(b, e)[i], k);
      assert r[i + 1] == Spans(b, e)[i];
    }
  }

  /** No "https://" is lost or reported twice: each one lies in exactly one captured URL. */
  lemma OccurrenceInExactlyOneUrl(b: seq<byte>, k: nat)
    requires HttpsAt(b, k)
    ensures exists i :: 0 <= i < |Spans(b, 0)| && Spans(b, 0)[i].lo <= k < Spans(b, 0)[i].hi
    ensures forall i, i' ::
      (0 <= i < |Spans(b, 0)| && Spans(b, 0)[i].lo <= k < Spans(b, 0)[i].hi &&
       0 <= i' < |Spans(b, 0)| && Spans(b, 0)[i'].lo <= k < Spans(b, 0)[i'].hi) ==> i == i'
  {
    OccurrenceCovered(b, 0, k);
    SpansOrdered(b, 0);
  }

  /** The scan finds nothing exactly when the buffer holds no "https://" at all. */
  lemma NoUrlsIffNoHttps(b: seq<byte>)
    ensures Spans(b, 0) == [] <==> forall k: nat :: !HttpsAt(b, k)
  {
    if Spans(b, 0) == [] {
      forall k: nat ensures !HttpsAt(b, k) {
        if HttpsAt(b, k) {
          OccurrenceCovered(b, 0, k);
        }
      }
    }
  }

  /** The bytes of a string of Latin-1 characters (for stating examples). */
  function Bytes(s: string): (b: seq<byte>)
    requires forall c <- s :: c as int < 0x100
    ensures |b| == |s| && forall i :: 0 <= i < |s| ==> Char(b[i]) == s[i]
  {
    seq(|s|, i requires 0 <= i < |s| => assert s[i] in s; s[i] as int as byte)
  }

  /** Without an 's' byte there is no "https://" anywhere. */
  lemma NoSchemeLetterNoHttps(b: seq<byte>)
    requires forall i :: 0 <= i < |b| ==> Char(b[i]) != 's'
    ensures forall k: nat :: !HttpsAt(b, k)
  {
    forall k: nat ensures !HttpsAt(b, k) {
      if k + 8 <= |b| {
        assert b[k..k + 8][4] == b[k + 4];
      }
    }
  }

  /** Only the secure scheme is recognised: a lone "http://" URL yields nothing. */
  lemma InsecureSchemeIgnored()
    ensures Spans(Bytes("http://example.com"), 0) == []
  {
    var b := Bytes("http://example.com");
    assert forall i :: 0 <= i < |b| ==> Char(b[i]) != 's';
    NoSchemeLetterNoHttps(b);
    NoUrlsIffNoHttps(b);
  }
}
