/**
 * The two identifiers the server builds by concatenation: the Amazon
 * Resource Name of an ElastiCache cluster, which it tags, and the
 * `host:port` URL of a cluster's first cache node, which it returns to
 * callers and dials. Each comes with a reader that recovers its parts.
 */
module Identifiers {
  import opened Wrappers
  import opened Text

  // ---------------------------------------------------------------------------
  // Cluster ARN
  // ---------------------------------------------------------------------------

  const ArnPrefix := "arn:aws:elasticache:"
  const ClusterMarker := ":cluster:"

  /** Everything an ARN holds before the cluster name, for one region and account. */
  function ArnStem(region: string, account: string): string {
    ArnPrefix + region + ":" + account + ClusterMarker
  }

  /** The ARN of cluster `name` in `region` under account `account`. */
  function ClusterArn(region: string, account: string, name: string): (arn: string)
    ensures HasPrefix(arn, ArnStem(region, account))
    ensures |arn| == |ArnStem(region, account)| + |name|
    ensures arn[|arn| - |name|..] == name
  {
    ArnStem(region, account) + name
  }

  /** The cluster name an ARN of the given region and account refers to, if it is one. */
  function ClusterName(arn: string, region: string, account: string): Option<string> {
    var stem := ArnStem(region, account);
    if HasPrefix(arn, stem) then Some(arn[|stem|..]) else None
  }

  /** The ARN names the cluster it was built from, and every ARN with that stem is built from a name. */
  lemma ArnRoundTrip(region: string, account: string, name: string, arn: string)
    ensures ClusterName(ClusterArn(region, account, name), region, account) == Some(name)
    ensures ClusterName(arn, region, account) == Some(name) ==> ClusterArn(region, account, name) == arn
  {
    var stem := ArnStem(region, account);
    assert (stem + name)[|stem|..] == name;
    if ClusterName(arn, region, account) == Some(name) {
      assert arn == arn[..|stem|] + arn[|stem|..];
    }
  }

  /** For a fixed region and account, different clusters have different ARNs. */
  lemma ArnInjective(region: string, account: string, name1: string, name2: string)
    requires ClusterArn(region, account, name1) == ClusterArn(region, account, name2)
    ensures name1 == name2
  {
    ArnRoundTrip(region, account, name1, "");
    ArnRoundTrip(region, account, name2, "");
  }

  // ---------------------------------------------------------------------------
  // Endpoint URL
  // ---------------------------------------------------------------------------

  /** The address of a cache node; the port is Go's int64, never wrapped here. */
  datatype Endpoint = Endpoint(host: string, port: int)

  /** `host + ":" + strconv.FormatInt(port, 10)` */
  function Url(e: Endpoint): (url: string)
    ensures HasPrefix(url, e.host) && |url| > |e.host| && url[|e.host|] == ':'
    ensures ':' !in url[|e.host| + 1..]
  {
    var port := FormatInt(e.port);
    assert ':' !in port by {
      forall k | 0 <= k < |port| ensures port[k] != ':' {
        if e.port < 0 && k > 0 { assert port[k] == port[1..][k - 1]; }
      }
    }
    var url := e.host + ":" + port;
    assert url[|e.host| + 1..] == port;
    url
  }

  /** The position of the last ':' in `s`, if any. */
  function LastColon(s: string): (i: Option<nat>)
    ensures i.None? ==> ':' !in s
    ensures i.Some? ==> i.value < |s| && s[i.value] == ':' && ':' !in s[i.value + 1..]
  {
    if s == [] then None
    else if s[|s| - 1] == ':' then Some(|s| - 1)
    else
      var i := LastColon(s[..|s| - 1]);
      assert s == s[..|s| - 1] + [s[|s| - 1]];
      i
  }

  /** Splits a URL at its last ':' into host and decimal port. */
  function ParseUrl(url: string): Option<Endpoint> {
    match LastColon(url)
    case None => None
    case Some(i) =>
      match DecimalValue(url[i + 1..])
      case None => None
      case Some(port) => Some(Endpoint(url[..i], port))
  }

  /** The URL of an endpoint reads back as that endpoint, whatever colons its host holds. */
  lemma UrlRoundTrip(e: Endpoint)
    ensures ParseUrl(Url(e)) == Some(e)
  {
    var url := Url(e);
    var h := |e.host|;
    match LastColon(url)
    case Some(i) =>
      assert i == h;
      assert url[..h] == e.host;
      assert url[h + 1..] == FormatInt(e.port);
      FormatIntRoundTrip(e.port);
  }

  /** Different endpoints have different URLs. */
  lemma UrlInjective(e1: Endpoint, e2: Endpoint)
    requires Url(e1) == Url(e2)
    ensures e1 == e2
  {
    UrlRoundTrip(e1);
    UrlRoundTrip(e2);
  }
}
