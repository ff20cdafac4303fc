/**
 * The request handlers of the broker, with the ElastiCache control plane,
 * the database's availability and the TCP exchange with a cache node given
 * as inputs. Each handler returns, besides its result, the control-plane
 * requests it issued, so that what is sent, and in which order, is part of
 * what is proved.
 */
module Handlers {
  import opened Wrappers
  import opened Text
  import opened Identifiers
  import opened Stats
  import opened Pool

  /** A request to the ElastiCache control plane. */
  datatype CloudCall =
    | AddTags(arn: string, key: string, value: string)
    | DescribeCluster(name: string)
    | DeleteCluster(name: string)

  /**
   * The TCP exchange a cache command aims at: the node's address and the
   * command line to write. The address is still to be resolved and dialled,
   * and either step can fail before anything is written.
   */
  datatype Dial = Dial(address: string, command: string)

  const BillingTag := "billingcode"
  const StatsCommand := "stats\n"
  const FlushCommand := "flush_all\n"

  // ---------------------------------------------------------------------------
  // Provisioning
  // ---------------------------------------------------------------------------

  datatype ProvisionError =
    | StoreError       // the database could not be reached
    | PoolExhausted    // no unclaimed row of the plan: the select returned no row
    | TagFailed        // AddTagsToResource failed; the row stays claimed
    | DescribeFailed   // DescribeCacheClusters failed; the row stays claimed and tagged

  /**
   * POST /v1/memcached/instance: claim the oldest unclaimed cluster of the
   * plan, tag it with the caller's billing code, then look up its node and
   * answer its URL. Nothing is sent to the control plane unless the claim
   * succeeded, and a later failure does not undo the claim.
   * `storeOk` says whether the database answers; `tagOk` and `node` are the
   * control plane's answers to the tag and describe requests.
   */
  method Provision(table: ProvisionTable, region: string, account: string, plan: string, billingcode: string,
                   storeOk: bool, tagOk: bool, node: Option<Endpoint>)
    returns (result: Result<string, ProvisionError>, claimed: Option<string>, calls: seq<CloudCall>)
    requires table.Valid()
    modifies table
    ensures table.Valid()
    ensures claimed.None? ==> table.rows == old(table.rows) && calls == [] && result.Failure?
    ensures !storeOk ==> claimed.None? && result == Failure(StoreError)
    ensures storeOk && claimed.None? ==>
      result == Failure(PoolExhausted) && forall k :: 0 <= k < |table.rows| ==> !Eligible(table.rows[k], plan)
    ensures claimed.Some? ==>
      var name := claimed.value;
      && storeOk
      && (exists i :: OldestEligible(old(table.rows), plan, i) && old(table.rows)[i].name == name)
      && table.rows == SetClaimed(old(table.rows), name, Claimed)
      && calls == [AddTags(ClusterArn(region, account, name), BillingTag, billingcode)]
                  + (if tagOk then [DescribeCluster(name)] else [])
      && result == (if !tagOk then Failure(TagFailed)
                    else if node.None? then Failure(DescribeFailed)
                    else Success(Url(node.value)))
  {
    calls := [];
    if !storeOk {
      return Failure(StoreError), None, calls;
    }
    claimed := table.Claim(plan);
    if claimed.None? {
      return Failure(PoolExhausted), None, calls;
    }
    var name := claimed.value;
    calls := calls + [AddTags(ClusterArn(region, account, name), BillingTag, billingcode)];
    if !tagOk {
      return Failure(TagFailed), claimed, calls;
    }
    calls := calls + [DescribeCluster(name)];
    if node.None? {
      return Failure(DescribeFailed), claimed, calls;
    }
    result := Success(Url(node.value));
  }

  // ---------------------------------------------------------------------------
  // Deprovisioning
  // ---------------------------------------------------------------------------

  datatype DeprovisionResult =
    | CloudDeleteFailed        // DeleteCacheCluster failed; the table is untouched
    | StoreDeleteFailed        // the cluster is gone but its row could not be deleted
    | Deprovisioned(affected: nat)

  /**
   * DELETE /v1/memcached/instance/:name: delete the cluster first and, only
   * once that succeeded, its row. `cloudOk` is the control plane's answer and
   * `storeOk` whether the database answers.
   */
  method Deprovision(table: ProvisionTable, name: string, cloudOk: bool, storeOk: bool)
    returns (result: DeprovisionResult, calls: seq<CloudCall>)
    requires table.Valid()
    modifies table
    ensures table.Valid()
    ensures calls == [DeleteCluster(name)]
    ensures !cloudOk ==> result == CloudDeleteFailed && table.rows == old(table.rows)
    ensures cloudOk && !storeOk ==> result == StoreDeleteFailed && table.rows == old(table.rows)
    ensures cloudOk && storeOk ==>
      && table.rows == DeleteName(old(table.rows), name)
      && result == Deprovisioned(|old(table.rows)| - |table.rows|)
      && result.affected == (if HasName(old(table.rows), name) then 1 else 0)
  {
    calls := [DeleteCluster(name)];
    if !cloudOk {
      return CloudDeleteFailed, calls;
    }
    if !storeOk {
      return StoreDeleteFailed, calls;
    }
    DeleteNameEffect(table.rows, name);
    ghost var before := table.rows;
    if HasName(before, name) {
      ghost var i :| 0 <= i < |before| && before[i].name == name;
      assert |before[..i] + before[i + 1..]| == |before| - 1;
    }
    var affected := table.Delete(name);
    result := Deprovisioned(affected);
  }

  // ---------------------------------------------------------------------------
  // Tags and URLs
  // ---------------------------------------------------------------------------

  /** The body of the tag handler's answer; `message` None is a JSON null. */
  datatype TagReply = TagAdded | TagError(message: Option<string>)

  /**
   * The answer the tag handler gives as written: on a failed tag request
   * the error field holds the request-binding errors, which are always nil
   * at that point, instead of the control plane's error.
   */
  function TagReplyAsWritten(awsError: Option<string>): (reply: TagReply)
    ensures reply.TagAdded? <==> awsError.None?
    ensures reply.TagError? ==> reply.message.None?
  {
    if awsError.None? then TagAdded else TagError(None)
  }

  /** The intended answer: the control plane's error is passed on. */
  function TagReplyOf(awsError: Option<string>): (reply: TagReply)
    ensures reply.TagAdded? <==> awsError.None?
    ensures reply.TagError? ==> reply.message == awsError
  {
    if awsError.None? then TagAdded else TagError(awsError)
  }

  /** As written, every failed tag request is answered without its reason. */
  lemma TagErrorDropped(awsError: Option<string>)
    requires awsError.Some?
    ensures TagReplyAsWritten(awsError) == TagError(None)
    ensures TagReplyOf(awsError) != TagReplyAsWritten(awsError)
  {
  }

  /**
   * POST /v1/tag: one tag request, addressed to the ARN of the named
   * cluster. `awsError` is the control plane's answer, None on success.
   */
  method Tag(region: string, account: string, resource: string, key: string, value: string,
             awsError: Option<string>)
    returns (reply: TagReply, calls: seq<CloudCall>)
    ensures |calls| == 1 && calls[0].AddTags? && calls[0].key == key && calls[0].value == value
    ensures ClusterName(calls[0].arn, region, account) == Some(resource)
    ensures reply.TagAdded? <==> awsError.None?
    ensures reply.TagError? ==> reply.message == awsError
  {
    var arn := ClusterArn(region, account, resource);
    ArnRoundTrip(region, account, resource, arn);
    calls := [AddTags(arn, key, value)];
    reply := TagReplyOf(awsError);
  }

  /** GET /v1/memcached/url/:name: describe the cluster and answer its node's URL. */
  method ClusterUrl(name: string, node: Option<Endpoint>) returns (url: Option<string>, calls: seq<CloudCall>)
    ensures calls == [DescribeCluster(name)]
    ensures url == (if node.Some? then Some(Url(node.value)) else None)
    ensures url.Some? ==> ParseUrl(url.value) == node
  {
    calls := [DescribeCluster(name)];
    if node.None? {
      return None, calls;
    }
    UrlRoundTrip(node.value);
    url := Some(Url(node.value));
  }

  // ---------------------------------------------------------------------------
  // Cache operations
  // ---------------------------------------------------------------------------

  datatype ControlError =
    | NodeUnknown               // DescribeCacheClusters failed
    | TransportFailed           // resolving, dialling, writing or reading failed
    | Malformed(e: ParseError)  // a "STAT" line without a value

  /**
   * The exchange of `getstats`: describe the cluster, dial its node, write
   * "stats\n" and read the reply to the end, then parse it. `reply` is what
   * the connection yields, None when any step of the TCP exchange failed.
   */
  method FetchStats(name: string, node: Option<Endpoint>, reply: Option<string>)
    returns (result: Result<seq<Stat>, ControlError>, calls: seq<CloudCall>, target: Option<Dial>)
    ensures calls == [DescribeCluster(name)]
    ensures node.None? ==> target.None? && result == Failure(NodeUnknown)
    ensures node.Some? ==> target == Some(Dial(Url(node.value), StatsCommand))
    ensures node.Some? && reply.None? ==> result == Failure(TransportFailed)
    ensures node.Some? && reply.Some? ==>
      match ParseStats(reply.value)
      case Success(stats) => result == Success(stats)
      case Failure(e) => result == Failure(Malformed(e))
  {
    calls := [DescribeCluster(name)];
    if node.None? {
      return Failure(NodeUnknown), calls, None;
    }
    target := Some(Dial(Url(node.value), StatsCommand));
    if reply.None? {
      return Failure(TransportFailed), calls, target;
    }
    var parsed := GetStats(reply.value);
    match parsed
    case Success(stats) => result := Success(stats);
    case Failure(e) => result := Failure(Malformed(e));
  }

  /**
   * The exchange of `flushall`: as for the statistics, with "flush_all\n"
   * as the command; the reply is answered trimmed and otherwise verbatim.
   */
  method FlushAll(name: string, node: Option<Endpoint>, reply: Option<string>)
    returns (result: Result<string, ControlError>, calls: seq<CloudCall>, target: Option<Dial>)
    ensures calls == [DescribeCluster(name)]
    ensures node.None? ==> target.None? && result == Failure(NodeUnknown)
    ensures node.Some? ==> target == Some(Dial(Url(node.value), FlushCommand))
    ensures node.Some? && reply.None? ==> result == Failure(TransportFailed)
    ensures node.Some? && reply.Some? ==> result == Success(TrimSpace(reply.value))
  {
    calls := [DescribeCluster(name)];
    if node.None? {
      return Failure(NodeUnknown), calls, None;
    }
    target := Some(Dial(Url(node.value), FlushCommand));
    if reply.None? {
      return Failure(TransportFailed), calls, target;
    }
    result := Success(TrimSpace(reply.value));
  }

  /** The acknowledgement "OK" of a flush comes back without the padding around it. */
  lemma FlushAllExample(reply: string)
    requires reply == "  OK\r\n"
    ensures TrimSpace(reply) == "OK"
  {
    assert Trims(reply, 2, 4);
    TrimSpaceUnique(reply, 2, 4);
  }
}
