/** The configuration defaults the ledger reads and the rewrite of the database URL:
    the "postgres://" scheme becomes "postgresql://", and a PostgreSQL URL without an
    sslmode gets "sslmode=require". */
module Config {
  import opened Text

  /** Items per page of the transaction listing. */
  const DefaultPageSize: nat := 20

  /** Budget alert when expenses reach this percent of income. */
  const BudgetAlertPercent: real := 90.0

  /** Large-transaction alert when one expense reaches this percent of income. */
  const LargeTransactionPercent: real := 25.0

  const ShortScheme: string := "postgres://"
  const LongScheme: string := "postgresql://"

  /** The scheme rewrite: the rest of the URL is kept as it is. */
  function NormalizeScheme(url: string): (r: string)
    ensures StartsWith(url, ShortScheme) ==> r == LongScheme + url[|ShortScheme|..]
    ensures !StartsWith(url, ShortScheme) ==> r == url
    ensures !StartsWith(r, ShortScheme)
  {
    if StartsWith(url, ShortScheme) then
      var r := LongScheme + url[|ShortScheme|..];
      assert r[8] == 'q' && ShortScheme[8] == ':';
      r
    else url
  }

  /** The SSL step: a URL mentioning postgresql but not sslmode gets the parameter,
      as the first query parameter when there is none yet. Nothing of the URL is lost,
      and afterwards a PostgreSQL URL always names an sslmode. */
  function EnsureSsl(url: string): (r: string)
    ensures |url| <= |r| && r[..|url|] == url
    ensures r != url <==> Contains(url, "postgresql") && !Contains(url, "sslmode")
    ensures r != url ==> r[|url|] == (if Contains(url, "?") then '&' else '?') && r[|url| + 1..] == "sslmode=require"
    ensures Contains(url, "postgresql") ==> Contains(r, "sslmode") && Contains(r, "postgresql")
  {
    if Contains(url, "postgresql") && !Contains(url, "sslmode") then
      var suffix := if Contains(url, "?") then "&sslmode=require" else "?sslmode=require";
      SslParameterAppended(url, suffix);
      ContainsAppend(url, suffix, "postgresql");
      url + suffix
    else url
  }

  /** Appending the parameter keeps the URL as a prefix and names sslmode. */
  lemma SslParameterAppended(url: string, suffix: string)
    requires suffix == "&sslmode=require" || suffix == "?sslmode=require"
    ensures (url + suffix)[..|url|] == url && (url + suffix)[|url|] == suffix[0]
    ensures (url + suffix)[|url| + 1..] == "sslmode=require"
    ensures Contains(url + suffix, "sslmode")
  {
    var r := url + suffix;
    assert r[..|url|] == url && r[|url| + 1..] == suffix[1..];
    assert r[|url| + 1..|url| + 1 + 7] == "sslmode";
    ContainsAt(r, "sslmode", |url| + 1);
  }

  /** The two postgres steps of the configuration module, in order: a "postgres://" URL
      comes out with the long scheme and an sslmode, any other URL keeps its text as a
      prefix, and a PostgreSQL URL always ends up naming an sslmode. */
  function NormalizeDatabaseUrl(url: string): (r: string)
    ensures StartsWith(url, ShortScheme) ==> StartsWith(r, LongScheme) && Contains(r, "sslmode")
    ensures !StartsWith(url, ShortScheme) ==> |url| <= |r| && r[..|url|] == url
    ensures Contains(url, "postgresql") ==> Contains(r, "sslmode")
  {
    var n := NormalizeScheme(url);
    if StartsWith(url, ShortScheme) then
      assert n[0..|"postgresql"|] == "postgresql";
      ContainsAt(n, "postgresql", 0);
      var r := EnsureSsl(n);
      assert r[..|LongScheme|] == r[..|n|][..|LongScheme|];
      r
    else EnsureSsl(n)
  }

  /** The scheme rewrite is idempotent. */
  lemma NormalizeSchemeIdempotent(url: string)
    ensures NormalizeScheme(NormalizeScheme(url)) == NormalizeScheme(url)
  {
  }

  /** The SSL step is idempotent. */
  lemma EnsureSslIdempotent(url: string)
    ensures EnsureSsl(EnsureSsl(url)) == EnsureSsl(url)
  {
  }

  /** Appending to a URL that mentions postgresql cannot make it start with "postgres://"
      unless it already did. */
  lemma AppendKeepsScheme(url: string, tail: string)
    requires Contains(url, "postgresql") && !StartsWith(url, ShortScheme)
    ensures !StartsWith(url + tail, ShortScheme)
  {
    ContainsLength(url, "postgresql");
    if |url| >= |ShortScheme| {
      assert (url + tail)[..|ShortScheme|] == url[..|ShortScheme|];
    } else {
      assert |url| == 10;
      assert url == "postgresql" by {
        ContainsShort(url, "postgresql");
      }
      assert (url + tail)[8] == 'q';
    }
  }

  lemma {:induction false} ContainsLength(s: string, needle: string)
    requires Contains(s, needle)
    ensures |needle| <= |s|
    decreases |s|
  {
    if !StartsWith(s, needle) {
      ContainsLength(s[1..], needle);
    }
  }

  /** A needle as long as the text occurs only as the whole text. */
  lemma ContainsShort(s: string, needle: string)
    requires Contains(s, needle) && |s| == |needle|
    ensures s == needle
  {
    if !StartsWith(s, needle) {
      ContainsLength(s[1..], needle);
    }
  }

  /** The whole rewrite is idempotent: normalising a normalised URL changes nothing. */
  lemma NormalizeDatabaseUrlIdempotent(url: string)
    ensures NormalizeDatabaseUrl(NormalizeDatabaseUrl(url)) == NormalizeDatabaseUrl(url)
  {
    var n := NormalizeScheme(url);
    var r := EnsureSsl(n);
    if r != n {
      AppendKeepsScheme(n, r[|n|..]);
      assert n + r[|n|..] == r;
    }
    assert NormalizeScheme(r) == r;
    EnsureSslIdempotent(n);
  }

  /** A URL that is not PostgreSQL, such as a SQLite one, passes through unchanged. */
  lemma OtherUrlsUnchanged(url: string)
    requires !StartsWith(url, ShortScheme) && !Contains(url, "postgresql")
    ensures NormalizeDatabaseUrl(url) == url
  {
  }
}
