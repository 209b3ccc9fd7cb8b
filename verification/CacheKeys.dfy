/** The keys a cache instance composes, and why two of them never collide by accident. */
module CacheKeys {
  import opened Sequences

  const MAX_DISCRIMINATOR := 64

  function Decimal(n: nat): (s: string)
    ensures s != "" && forall c :: c in s ==> '0' <= c <= '9'
  {
    var digit := ('0' as int + n % 10) as char;
    if n < 10 then [digit] else Decimal(n / 10) + [digit]
  }

  /** `(int)` of a string of digits. */
  function ToInt(s: string): int {
    if s == "" then 0 else 10 * ToInt(s[..|s| - 1]) + (s[|s| - 1] as int - '0' as int)
  }

  predicate KeptInDiscriminator(c: char) {
    'A' <= c <= 'Z' || 'a' <= c <= 'z' || '0' <= c <= '9' || c == '_' || c == '-'
  }

  function Only(c: char): (r: string)
    ensures |r| <= 1 && forall d :: d in r ==> KeptInDiscriminator(d)
  {
    if KeptInDiscriminator(c) then [c] else ""
  }

  function Filter(s: string): (r: string)
    ensures forall c :: c in r ==> KeptInDiscriminator(c)
    ensures |r| <= |s|
  {
    if s == "" then "" else Filter(s[..|s| - 1]) + Only(s[|s| - 1])
  }

  /** The part of a discriminator that reaches the key. */
  function Sanitize(discriminator: string): (r: string)
    ensures |r| <= MAX_DISCRIMINATOR && forall c :: c in r ==> KeptInDiscriminator(c)
  {
    Cut(Filter(discriminator), MAX_DISCRIMINATOR)
  }

  /** `substr(s, 0, k)` */
  function Cut(s: string, k: nat): string {
    if |s| <= k then s else s[..k]
  }

  function VersionKey(namespace: string): string {
    namespace + ":version"
  }

  function DataKey(namespace: string, generation: nat, entity: string, discriminator: string): string {
    var key := namespace + ":g" + Decimal(generation) + ":" + entity;
    var kept := Sanitize(discriminator);
    if kept == "" then key else key + ":" + kept
  }

  ghost predicate ColonFree(s: string) {
    ':' !in s
  }

  // ----- Decimal numbers read back -----

  lemma {:induction false} DecimalReadsBack(n: nat)
    ensures ToInt(Decimal(n)) == n
  {
    var digit := ('0' as int + n % 10) as char;
    if n >= 10 {
      DecimalReadsBack(n / 10);
      assert (Decimal(n / 10) + [digit])[..|Decimal(n / 10)|] == Decimal(n / 10);
    } else {
      assert [digit][..0] == "";
    }
  }

  // ----- Cutting at the first colon -----

  lemma FirstColon(a: string, b: string, c: string, d: string)
    requires ColonFree(a) && ColonFree(c) && a + ":" + b == c + ":" + d
    ensures a == c && b == d
  {
    var s := a + ":" + b;
    assert s[|a|] == ':' && s[|c|] == ':';
    assert forall i :: 0 <= i < |a| ==> s[i] == a[i] != ':';
    assert forall i :: 0 <= i < |c| ==> s[i] == c[i] != ':';
    assert a == s[..|a|] && c == s[..|c|];
    assert b == s[|a| + 1..] && d == s[|c| + 1..];
  }

  /** The end of a data key: an entity and perhaps a discriminator. */
  function Tail(entity: string, kept: string): string {
    if kept == "" then entity else entity + ":" + kept
  }

  lemma TailDetermines(e: string, k: string, f: string, l: string)
    requires ColonFree(e) && ColonFree(f) && Tail(e, k) == Tail(f, l)
    ensures e == f && k == l
  {
    assert k != "" ==> Tail(e, k)[|e|] == ':' && Tail(e, k)[|e|] in Tail(e, k);
    assert l != "" ==> Tail(f, l)[|f|] == ':' && Tail(f, l)[|f|] in Tail(f, l);
    if k != "" && l != "" {
      FirstColon(e, k, f, l);
    }
  }

  lemma DataKeyParts(namespace: string, generation: nat, entity: string, discriminator: string)
    ensures DataKey(namespace, generation, entity, discriminator)
         == namespace + ":" + (("g" + Decimal(generation)) + ":" + Tail(entity, Sanitize(discriminator)))
  {
    hide Decimal, Sanitize;
  }

  lemma GenerationIsColonFree(n: nat)
    ensures ColonFree("g" + Decimal(n))
  {
    hide Decimal;
  }

  /** A data key determines namespace, generation, entity and the kept discriminator. */
  lemma DataKeyDetermines(n: string, g: nat, e: string, d: string, n': string, g': nat, e': string, d': string)
    requires ColonFree(n) && ColonFree(e) && ColonFree(n') && ColonFree(e')
    ensures DataKey(n, g, e, d) == DataKey(n', g', e', d')
            <==> n == n' && g == g' && e == e' && Sanitize(d) == Sanitize(d')
  {
    hide DataKey, Decimal, Sanitize, Tail;
    DataKeyParts(n, g, e, d);
    DataKeyParts(n', g', e', d');
    if DataKey(n, g, e, d) == DataKey(n', g', e', d') {
      var rest := ("g" + Decimal(g)) + ":" + Tail(e, Sanitize(d));
      var rest' := ("g" + Decimal(g')) + ":" + Tail(e', Sanitize(d'));
      FirstColon(n, rest, n', rest');
      GenerationIsColonFree(g);
      GenerationIsColonFree(g');
      FirstColon("g" + Decimal(g), Tail(e, Sanitize(d)), "g" + Decimal(g'), Tail(e', Sanitize(d')));
      TailDetermines(e, Sanitize(d), e', Sanitize(d'));
      assert Decimal(g) == ("g" + Decimal(g))[1..] && Decimal(g') == ("g" + Decimal(g'))[1..];
      DecimalReadsBack(g);
      DecimalReadsBack(g');
    }
  }

  /** No data key of a colon-free namespace is the version key of a colon-free namespace. */
  lemma DataKeyIsNoVersionKey(n: string, g: nat, e: string, d: string, n': string)
    requires ColonFree(n) && ColonFree(n')
    ensures DataKey(n, g, e, d) != VersionKey(n')
  {
    hide DataKey, Decimal, Sanitize, Tail;
    DataKeyParts(n, g, e, d);
    var rest := ("g" + Decimal(g)) + ":" + Tail(e, Sanitize(d));
    assert rest[0] == 'g';
    if DataKey(n, g, e, d) == VersionKey(n') {
      assert VersionKey(n') == n' + ":" + "version";
      FirstColon(n, rest, n', "version");
    }
  }

  lemma VersionKeyDetermines(n: string, n': string)
    ensures VersionKey(n) == VersionKey(n') <==> n == n'
  {
    assert n == VersionKey(n)[..|n|] && n' == VersionKey(n')[..|n'|];
    assert |VersionKey(n)| == |n| + 8 && |VersionKey(n')| == |n'| + 8;
  }

  predicate EndsWith(s: string, end: string) {
    |end| <= |s| && s[|s| - |end|..] == end
  }

  lemma EndOfConcat(a: string, b: string, end: string)
    ensures |b| >= |end| ==> (EndsWith(a + b, end) <==> EndsWith(b, end))
  {
    if |b| >= |end| {
      assert (a + b)[|a + b| - |end|..] == b[|b| - |end|..];
    }
  }

  /** Whether text ends in `:version` is decided by what stands behind its last colon. */
  lemma LastPart(a: string, last: string)
    requires ColonFree(last)
    ensures EndsWith(a + ":" + last, ":version") <==> last == "version"
  {
    assert a + ":" + last == a + (":" + last);
    if |last| < 7 {
      ShortEnd(a, last);
    } else {
      EndOfConcat(a, ":" + last, ":version");
      if |last| == 7 {
        assert (":" + last)[1..] == last && ":version"[1..] == "version";
      } else {
        LongEnd(last);
      }
    }
  }

  /** A colon too far right. */
  lemma ShortEnd(a: string, rest: string)
    requires |rest| < 7
    ensures !EndsWith(a + (":" + rest), ":version")
  {
    var s, k := a + (":" + rest), 7 - |rest|;
    if |s| >= 8 {
      assert s[|s| - 8..][k] == s[|a|] == ':';
      assert ":version"[k] != ':';
    }
  }

  /** No colon where it should be. */
  lemma LongEnd(last: string)
    requires |last| > 7 && ColonFree(last)
    ensures !EndsWith(":" + last, ":version")
  {
    var t := ":" + last;
    assert t[|t| - 8..][0] == t[|t| - 8] == last[|last| - 8];
    assert last[|last| - 8] in last;
  }

  /** A key is some namespace's version key if it ends like one. */
  lemma SomeVersionKey(key: string)
    ensures (exists n: string :: key == VersionKey(n)) <==> EndsWith(key, ":version")
  {
    if EndsWith(key, ":version") {
      var n := key[..|key| - 8];
      assert key == VersionKey(n);
    }
    forall n: string | key == VersionKey(n)
      ensures EndsWith(key, ":version")
    {
      assert key[|key| - 8..] == ":version";
    }
  }

  /** Whatever the namespace, entity and discriminator: a data key is the version key of some
      namespace exactly if its discriminator is `version`, or there is none and the entity is, or
      ends in, the word behind a colon. */
  lemma DataKeyIsVersionKey(n: string, g: nat, e: string, d: string)
    ensures (exists n': string :: DataKey(n, g, e, d) == VersionKey(n'))
            <==> if Sanitize(d) == "" then EndsWith(":" + e, ":version") else Sanitize(d) == "version"
  {
    hide Decimal, Sanitize, EndsWith;
    SomeVersionKey(DataKey(n, g, e, d));
    var front := n + ":g" + Decimal(g);
    if Sanitize(d) == "" {
      assert DataKey(n, g, e, d) == front + (":" + e);
      EndOfEntity(front, e);
    } else {
      KeptIsColonFree(d);
      LastPart(front + ":" + e, Sanitize(d));
    }
  }

  lemma KeptIsColonFree(d: string)
    ensures ColonFree(Sanitize(d))
  {
  }

  lemma EndOfEntity(a: string, e: string)
    ensures EndsWith(a + (":" + e), ":version") <==> EndsWith(":" + e, ":version")
  {
    EndOfConcat(a, ":" + e, ":version");
    if |e| < 7 {
      ShortEnd(a, e);
    }
  }

  /** For an entity without colons: exactly if the last part is the word. */
  lemma VersionMeansVersion(n: string, g: nat, e: string, d: string)
    requires ColonFree(e)
    ensures (exists n': string :: DataKey(n, g, e, d) == VersionKey(n'))
            <==> Sanitize(d) == "version" || (Sanitize(d) == "" && e == "version")
  {
    hide DataKey, VersionKey, EndsWith, Sanitize;
    DataKeyIsVersionKey(n, g, e, d);
    LastPart("", e);
    assert "" + ":" + e == ":" + e;
  }

  /** Such a key of namespace `a`: it is the version key of `a:g0`. */
  lemma ColonsCollide()
    ensures DataKey("a", 0, "version", "") == VersionKey("a:g0")
  {
    assert Decimal(0) == "0";
    assert Filter("") == "";
    assert DataKey("a", 0, "version", "") == "a:g0:version";
  }

  // ----- Discriminators made of parts -----

  predicate AllKept(s: string) {
    forall c :: c in s ==> KeptInDiscriminator(c)
  }

  lemma FilterNothing()
    ensures Filter("") == ""
  {
  }

  lemma FilterSnoc(s: string, c: char)
    ensures Filter(s + [c]) == Filter(s) + Only(c)
  {
    hide Only;
    assert (s + [c])[..|s|] == s;
  }

  lemma {:induction false} FilterConcat(a: string, b: string)
    ensures Filter(a + b) == Filter(a) + Filter(b)
    decreases |b|
  {
    hide Only, KeptInDiscriminator, Filter;
    if b == "" {
      assert a + b == a;
      FilterNothing();
    } else {
      var front, last := b[..|b| - 1], b[|b| - 1];
      FilterConcat(a, front);
      assert b == front + [last] && a + b == a + front + [last];
      FilterSnoc(front, last);
      FilterSnoc(a + front, last);
      Regroup(Filter(a), Filter(front), Only(last));
    }
  }

  lemma {:induction false} FilterKeeps(s: string)
    requires AllKept(s)
    ensures Filter(s) == s
  {
    if s != "" {
      FilterKeeps(s[..|s| - 1]);
      assert s[|s| - 1] in s;
      assert s == s[..|s| - 1] + [s[|s| - 1]];
    }
  }

  /** A discriminator whose characters are all kept, and that is short enough, is kept whole. */
  lemma DigestIsKept(digest: string)
    requires AllKept(digest) && |digest| <= MAX_DISCRIMINATOR
    ensures Sanitize(digest) == digest
  {
    FilterKeeps(digest);
  }

  // ----- The discriminator, character by character -----

  /** A discriminator of at most 64 letters, digits, `_` and `-` ends the key unchanged; an empty one
      leaves no trace, and a longer one is cut behind its 64th character. */
  lemma WordEndsTheKey(n: string, g: nat, e: string, d: string)
    requires forall c :: c in d ==> 'A' <= c <= 'Z' || 'a' <= c <= 'z' || '0' <= c <= '9' || c == '_' || c == '-'
    ensures var front := n + ":g" + Decimal(g) + ":" + e;
            && (d == "" ==> DataKey(n, g, e, d) == front)
            && (1 <= |d| <= 64 ==> DataKey(n, g, e, d) == front + ":" + d)
            && (|d| > 64 ==> DataKey(n, g, e, d) == front + ":" + d[..64])
  {
    hide Decimal;
    FilterKeeps(d);
  }

  /** Any other character is dropped, wherever it stands. */
  lemma OthersAreDropped(n: string, g: nat, e: string, a: string, c: char, b: string)
    requires !('A' <= c <= 'Z' || 'a' <= c <= 'z' || '0' <= c <= '9' || c == '_' || c == '-')
    ensures DataKey(n, g, e, a + [c] + b) == DataKey(n, g, e, a + b)
  {
    hide Decimal, Cut;
    assert Only(c) == "";
    hide Only, KeptInDiscriminator;
    FilterConcat(a + [c], b);
    FilterSnoc(a, c);
    FilterConcat(a, b);
    assert Filter(a) + "" == Filter(a);
  }

  /** Keys whose discriminators are digests, 40 hexadecimal digits as `sha1` prints them, are equal
      exactly if the digests are. */
  lemma DigestsDecide(n: string, g: nat, e: string, d: string, d': string)
    requires |d| == 40 && |d'| == 40
    requires forall c :: c in d || c in d' ==> '0' <= c <= '9' || 'a' <= c <= 'f'
    ensures DataKey(n, g, e, d) == DataKey(n, g, e, d') <==> d == d'
  {
    WordEndsTheKey(n, g, e, d);
    WordEndsTheKey(n, g, e, d');
    hide DataKey, Decimal;
    var front := n + ":g" + Decimal(g) + ":" + e + ":";
    assert (front + d)[|front|..] == d && (front + d')[|front|..] == d';
  }

  /** A printed generation starts with a zero only if it is 0. */
  lemma {:induction false} NoLeadingZero(n: nat)
    ensures Decimal(n)[0] == '0' <==> n == 0
    ensures Decimal(0) == "0"
  {
    if n >= 10 {
      NoLeadingZero(n / 10);
    }
  }

  /** The discriminator of the usage example: a digest, a page and a limit, with colons between. */
  function Structured(digest: string, page: nat, limit: nat): string {
    digest + (":" + (Decimal(page) + (":" + Decimal(limit))))
  }

  lemma OneColon()
    ensures Filter(":") == ""
  {
    assert ":"[..0] == "";
    assert Filter("") == "";
  }

  lemma DecimalIsKept(n: nat)
    ensures AllKept(Decimal(n))
  {
  }

  /** The colons are dropped. */
  lemma StructuredKept(digest: string, page: nat, limit: nat)
    requires AllKept(digest)
    ensures Filter(Structured(digest, page, limit)) == digest + (Decimal(page) + Decimal(limit))
  {
    hide Filter, AllKept, Decimal;
    OneColon();
    DecimalIsKept(page);
    DecimalIsKept(limit);
    FilterKeeps(digest);
    FilterKeeps(Decimal(page));
    FilterKeeps(Decimal(limit));
    FilterConcat(digest, ":" + (Decimal(page) + (":" + Decimal(limit))));
    FilterConcat(":", Decimal(page) + (":" + Decimal(limit)));
    FilterConcat(Decimal(page), ":" + Decimal(limit));
    FilterConcat(":", Decimal(limit));
  }

  /** Two structured discriminators with digests of one length are kept alike exactly if the
      digests are equal, and so are the digits of page and limit, run together and cut. */
  lemma StructuredDetermines(h: string, p: nat, l: nat, h': string, p': nat, l': nat)
    requires AllKept(h) && AllKept(h') && |h| == |h'| <= MAX_DISCRIMINATOR
    ensures var room := MAX_DISCRIMINATOR - |h|;
            Sanitize(Structured(h, p, l)) == Sanitize(Structured(h', p', l'))
            <==> h == h' && Cut(Decimal(p) + Decimal(l), room) == Cut(Decimal(p') + Decimal(l'), room)
  {
    hide AllKept, Decimal, Filter, Structured, Cut;
    StructuredKept(h, p, l);
    StructuredKept(h', p', l');
    CutBehind(h, Decimal(p) + Decimal(l), MAX_DISCRIMINATOR);
    CutBehind(h', Decimal(p') + Decimal(l'), MAX_DISCRIMINATOR);
    var room := MAX_DISCRIMINATOR - |h|;
    var a, b := h + Cut(Decimal(p) + Decimal(l), room), h' + Cut(Decimal(p') + Decimal(l'), room);
    assert a[..|h|] == h && a[|h|..] == Cut(Decimal(p) + Decimal(l), room);
    assert b[..|h'|] == h' && b[|h'|..] == Cut(Decimal(p') + Decimal(l'), room);
  }

  lemma CutBehind(h: string, s: string, k: nat)
    requires |h| <= k
    ensures Cut(h + s, k) == h + Cut(s, k - |h|)
  {
  }

  /** So they stay distinct while nothing is cut and the limits have equally many digits. */
  lemma EqualLimitsStayDistinct(h: string, p: nat, l: nat, h': string, p': nat, l': nat)
    requires AllKept(h) && AllKept(h') && |h| == |h'| && |Decimal(l)| == |Decimal(l')|
    requires |h| + |Decimal(p)| + |Decimal(l)| <= MAX_DISCRIMINATOR
    requires |h'| + |Decimal(p')| + |Decimal(l')| <= MAX_DISCRIMINATOR
    ensures Sanitize(Structured(h, p, l)) == Sanitize(Structured(h', p', l')) <==> h == h' && p == p' && l == l'
  {
    hide AllKept, Decimal, Sanitize, Structured;
    StructuredDetermines(h, p, l, h', p', l');
    var a, b := Decimal(p) + Decimal(l), Decimal(p') + Decimal(l');
    if a == b {
      assert |Decimal(p)| == |Decimal(p')|;
      assert Decimal(p) == a[..|Decimal(p)|] == Decimal(p');
      assert Decimal(l) == a[|Decimal(p)|..] == Decimal(l');
      DecimalReadsBack(p);
      DecimalReadsBack(p');
      DecimalReadsBack(l);
      DecimalReadsBack(l');
    }
  }

  /** Page 1 of 11 rows and page 11 of 1 row share a key, whatever the digest. */
  lemma PagesCollide(h: string)
    requires AllKept(h) && |h| <= MAX_DISCRIMINATOR
    ensures Sanitize(Structured(h, 1, 11)) == Sanitize(Structured(h, 11, 1))
  {
    assert Decimal(1) == "1";
    assert Decimal(11) == "11";
    hide AllKept, Decimal, Sanitize, Structured, Cut;
    StructuredDetermines(h, 1, 11, h, 11, 1);
  }
}
