/** HTTP header maps with Go's canonical key form, and the redaction applied
    before a header map is stored. */
module HttpHeaders {
  import opened AuditStore
  import Text

  predicate IsTokenChar(c: char)
  {
    || 'a' <= c <= 'z' || 'A' <= c <= 'Z' || '0' <= c <= '9' || c in "!#$%&'*+-.^_`|~"
  }

  function CaseChar(c: char, upper: bool): char
  {
    if upper then Text.UpperChar(c) else Text.LowerChar(c)
  }

  /** Upper case at the start and after each hyphen, lower case elsewhere. */
  function Cased(k: string, upper: bool): (r: string)
    ensures |r| == |k|
  {
    if k == [] then [] else [CaseChar(k[0], upper)] + Cased(k[1..], k[0] == '-')
  }

  predicate IsToken(k: string)
  {
    forall i | 0 <= i < |k| :: IsTokenChar(k[i])
  }

  /** `textproto.CanonicalMIMEHeaderKey`: keys with other bytes stay as they are. */
  function Canonical(k: string): string
  {
    if IsToken(k) then Cased(k, true) else k
  }

  lemma {:induction false} CasedAt(k: string, upper: bool, i: nat)
    requires i < |k|
    ensures Cased(k, upper)[i] == CaseChar(k[i], if i == 0 then upper else k[i - 1] == '-')
  {
    if i > 0 { CasedAt(k[1..], k[0] == '-', i - 1); }
  }

  /** Canonical keys are fixed points, and differ from the original only in case. */
  lemma CanonicalFacts(k: string)
    ensures Canonical(Canonical(k)) == Canonical(k)
    ensures Text.EqualFold(Canonical(k), k)
  {
    hide Cased;
    var r := Cased(k, true);
    forall i | 0 <= i < |k|
      ensures Text.LowerChar(r[i]) == Text.LowerChar(k[i]) && (IsTokenChar(r[i]) <==> IsTokenChar(k[i]))
      ensures Cased(r, true)[i] == r[i]
    {
      CasedAt(k, true, i);
      CasedAt(r, true, i);
      if i > 0 { CasedAt(k, true, i - 1); }
    }
    assert Cased(r, true) == r;
    assert Text.Lower(r) == Text.Lower(k);
  }

  /** The token characters of section 3.2.6 of RFC 7230, by their codes. */
  lemma TokenCharMeans(c: char)
    ensures var n := c as int;
            IsTokenChar(c) <==> n == 0x21 || 0x23 <= n <= 0x27 || n == 0x2A || n == 0x2B || n == 0x2D || n == 0x2E
                                || 0x30 <= n <= 0x39 || 0x41 <= n <= 0x5A || 0x5E <= n <= 0x7A || n == 0x7C || n == 0x7E
  {}

  /** A canonical token has capitals exactly at its start and after hyphens;
      any other key is left alone. */
  lemma CanonicalMeans(k: string)
    ensures !IsToken(k) ==> Canonical(k) == k
    ensures IsToken(k) ==>
              && |Canonical(k)| == |k|
              && forall i | 0 <= i < |k| ::
                   Canonical(k)[i] == if i == 0 || k[i - 1] == '-' then Text.UpperChar(k[i]) else Text.LowerChar(k[i])
  {
    hide Cased, IsTokenChar;
    forall i | 0 <= i < |k| && IsToken(k)
      ensures Canonical(k)[i] == if i == 0 || k[i - 1] == '-' then Text.UpperChar(k[i]) else Text.LowerChar(k[i])
    {
      CasedAt(k, true, i);
    }
  }

  predicate CanonicalKeys(h: Headers)
  {
    forall k | k in h :: Canonical(k) == k
  }

  function Add(h: Headers, k: string, v: string): Headers
  {
    var c := Canonical(k);
    h[c := (if c in h then h[c] else []) + [v]]
  }

  function Set(h: Headers, k: string, v: string): Headers
  {
    h[Canonical(k) := [v]]
  }

  function Get(h: Headers, k: string): string
  {
    var c := Canonical(k);
    if c in h && h[c] != [] then h[c][0] else ""
  }

  /** All values of one captured key, added one by one. */
  method AddAll(h: Headers, k: string, values: seq<string>) returns (r: Headers)
    ensures values == [] ==> r == h
    ensures values != [] ==>
              r == h[Canonical(k) := (if Canonical(k) in h then h[Canonical(k)] else []) + values]
  {
    hide Canonical;
    r := h;
    ghost var before := if Canonical(k) in h then h[Canonical(k)] else [];
    for i := 0 to |values|
      invariant i == 0 ==> r == h
      invariant i > 0 ==> r == h[Canonical(k) := before + values[..i]]
    {
      assert before + values[..i + 1] == before + values[..i] + [values[i]];
      assert i == 0 ==> before + values[..i] == before;
      assert (if Canonical(k) in r then r[Canonical(k)] else []) == before + values[..i];
      r := Add(r, k, values[i]);
      assert r == h[Canonical(k) := before + values[..i + 1]];
    }
    assert values[..|values|] == values;
  }

  // ---------------------------------------------------------------- redaction

  const REDACTED := "[redacted]"

  predicate MatchesRedactKey(key: string, redactKeys: seq<string>)
  {
    exists rk | rk in redactKeys :: rk != "" && Text.Contains(Text.Lower(key), Text.Lower(rk))
  }

  /** Same keys; the values of matching keys replaced. */
  function Sanitize(h: Headers, redactKeys: seq<string>): (r: Headers)
    ensures r.Keys == h.Keys
  {
    map k | k in h :: if MatchesRedactKey(k, redactKeys) then [REDACTED] else h[k]
  }

  /** The text occurs in the name at position i, ignoring case. */
  predicate OccursAt(key: string, rk: string, i: int)
  {
    0 <= i <= |key| - |rk| && Text.EqualFold(key[i..i + |rk|], rk)
  }

  ghost predicate Occurs(key: string, rk: string)
  {
    exists i :: OccursAt(key, rk, i)
  }

  lemma OccursAtMeans(key: string, rk: string, i: nat)
    requires i <= |key|
    ensures Text.Lower(rk) <= Text.Lower(key)[i..] <==> OccursAt(key, rk, i)
  {
    var lk, lr := Text.Lower(key), Text.Lower(rk);
    if i + |rk| <= |key| { assert Text.Lower(key[i..i + |rk|]) == lk[i..i + |rk|] == lk[i..][..|rk|]; }
  }

  lemma OccursMeans(key: string, rk: string)
    ensures Text.Contains(Text.Lower(key), Text.Lower(rk)) <==> Occurs(key, rk)
  {
    hide Text.Contains, Text.EqualFold;
    var lk, lr := Text.Lower(key), Text.Lower(rk);
    Text.ContainsAt(lk, lr);
    forall i | 0 <= i <= |key| ensures lr <= lk[i..] <==> OccursAt(key, rk, i) { OccursAtMeans(key, rk, i); }
  }

  method RedactKeyMatches(key: string, redactKeys: seq<string>) returns (hit: bool)
    ensures hit <==> MatchesRedactKey(key, redactKeys)
    ensures hit <==> exists j :: 0 <= j < |redactKeys| && redactKeys[j] != "" && Occurs(key, redactKeys[j])
  {
    hide Occurs;
    forall rk ensures Text.Contains(Text.Lower(key), Text.Lower(rk)) <==> Occurs(key, rk) { OccursMeans(key, rk); }
    var lk := Text.Lower(key);
    for i := 0 to |redactKeys|
      invariant forall j | 0 <= j < i ::
                  redactKeys[j] == "" || !Text.Contains(lk, Text.Lower(redactKeys[j]))
    {
      if redactKeys[i] == "" {
        continue;
      }
      if Text.Contains(lk, Text.Lower(redactKeys[i])) {
        return true;
      }
    }
    return false;
  }

  lemma RedactMeans(key: string, redactKeys: seq<string>)
    ensures MatchesRedactKey(key, redactKeys) <==>
            exists j :: 0 <= j < |redactKeys| && redactKeys[j] != "" && Occurs(key, redactKeys[j])
  {
    hide Occurs;
    forall rk ensures Text.Contains(Text.Lower(key), Text.Lower(rk)) <==> Occurs(key, rk) { OccursMeans(key, rk); }
  }

  /** Redaction, told from the names: the values of a name in which a redact key
      occurs are replaced, all others kept, and no name is added or lost. */
  lemma SanitizeMeans(h: Headers, redactKeys: seq<string>, k: string)
    ensures k in Sanitize(h, redactKeys) <==> k in h
    ensures k in h ==>
              Sanitize(h, redactKeys)[k]
              == if exists j :: 0 <= j < |redactKeys| && redactKeys[j] != "" && Occurs(k, redactKeys[j])
                 then ["[redacted]"] else h[k]
  {
    hide Occurs, MatchesRedactKey;
    RedactMeans(k, redactKeys);
  }

  /** The loop, in whatever order the map is visited. */
  method SanitizeHeaders(h: Headers, redactKeys: seq<string>) returns (out: Headers)
    ensures out == Sanitize(h, redactKeys)
  {
    if |redactKeys| == 0 {
      assert forall k :: !MatchesRedactKey(k, redactKeys);
      return h;
    }
    out := map[];
    var left := h.Keys;
    while left != {}
      invariant left <= h.Keys && out.Keys == h.Keys - left
      invariant forall k | k in out :: out[k] == Sanitize(h, redactKeys)[k]
      decreases |left|
    {
      var k :| k in left;
      left := left - {k};
      var hit := RedactKeyMatches(k, redactKeys);
      out := out[k := if hit then [REDACTED] else h[k]];
    }
  }
}
