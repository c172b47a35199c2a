// The access-record builders of src/logger/AccessLogger.hpp. Each builder
// fills one fresh record from its arguments and hands it to the logger; the
// logger's queue is the sequence `log` the builders extend. The clock
// reading and the peer string of the gRPC context are inputs.

module AccessLogger {
  import opened GrpcStatus

  datatype LogType = Prepare | Commit
  datatype Level = Info | Error

  /** The kind of request being logged; its values are not part of the model. */
  datatype OperationType = OperationType(name: string)

  /** The fields `AccessLogger` assigns; the record type itself is not
      declared anywhere in the repository, so it is defined from them. A
      field a builder leaves unassigned keeps its default (0 or ""). */
  datatype AccessRecord = AccessRecord(
    uuid: string,
    timestamp: int,
    logType: LogType,
    level: Level,
    operation: OperationType,
    clientIp: string,
    clientPort: int,
    serverIp: string,
    serverPort: int,
    params: string,
    statusCode: StatusCode,
    durationMs: int,
    errorMessage: string)

  /** The fields `parse_context_info` fills in. */
  datatype ContextInfo = ContextInfo(clientIp: string, clientPort: int, serverIp: string, serverPort: int)

  /** `parse_context_info`: the peer string verbatim as the client address,
      both ports 0, and the fixed server address 127.0.0.1. */
  function ParseContextInfo(peer: string): (c: ContextInfo)
    ensures c.clientIp == peer
    ensures c.clientPort == 0 && c.serverPort == 0
    ensures c.serverIp == "127.0.0.1"
  {
    ContextInfo(peer, 0, "127.0.0.1", 0)
  }

  function Record(uuid: string, now: int, logType: LogType, level: Level, op: OperationType, peer: string,
                  params: string, code: StatusCode, durationMs: int, errorMessage: string): AccessRecord
  {
    var c := ParseContextInfo(peer);
    AccessRecord(uuid, now, logType, level, op, c.clientIp, c.clientPort, c.serverIp, c.serverPort,
                 params, code, durationMs, errorMessage)
  }

  /** `log_prepare`: one PREPARE record at level INFO with status OK and the
      given uuid, operation and parameters is appended to the log. */
  function LogPrepare(log: seq<AccessRecord>, uuid: string, now: int, peer: string, op: OperationType,
                      params: string): (r: seq<AccessRecord>)
    ensures |r| == |log| + 1 && r[..|log|] == log
    ensures var rec := r[|log|];
            && rec.logType == Prepare && rec.level == Info && rec.statusCode == Ok
            && rec.uuid == uuid && rec.timestamp == now && rec.operation == op && rec.params == params
            && rec.clientIp == peer && rec.serverIp == "127.0.0.1"
  {
    log + [Record(uuid, now, Prepare, Info, op, peer, params, Ok, 0, "")]
  }

  /** `log_commit`: one COMMIT record is appended, at level INFO when the
      code is OK and ERROR otherwise, carrying the code, duration and error
      message unchanged. */
  function LogCommit(log: seq<AccessRecord>, uuid: string, now: int, peer: string, op: OperationType,
                     params: string, code: StatusCode, durationMs: int, errorMessage: string): (r: seq<AccessRecord>)
    ensures |r| == |log| + 1 && r[..|log|] == log
    ensures var rec := r[|log|];
            && rec.logType == Commit
            && (rec.level == Info <==> code == Ok)
            && (rec.level == Error <==> code != Ok)
            && rec.statusCode == code && rec.durationMs == durationMs && rec.errorMessage == errorMessage
            && rec.uuid == uuid && rec.timestamp == now && rec.operation == op && rec.params == params
            && rec.clientIp == peer && rec.serverIp == "127.0.0.1"
  {
    var level := if code == Ok then Info else Error;
    log + [Record(uuid, now, Commit, level, op, peer, params, code, durationMs, errorMessage)]
  }

  /** `log_abort`: a commit with empty parameters whose error message is the
      reason. */
  function LogAbort(log: seq<AccessRecord>, uuid: string, now: int, peer: string, op: OperationType,
                    code: StatusCode, reason: string, durationMs: int): (r: seq<AccessRecord>)
    ensures r == LogCommit(log, uuid, now, peer, op, "", code, durationMs, reason)
    ensures |r| == |log| + 1 && r[|log|].params == "" && r[|log|].errorMessage == reason
  {
    LogCommit(log, uuid, now, peer, op, "", code, durationMs, reason)
  }

  /** Every record the builders produce is consistent: a PREPARE record is
      INFO and OK, and a COMMIT record is INFO exactly when its status is OK. */
  ghost predicate Consistent(rec: AccessRecord)
  {
    && (rec.logType == Prepare ==> rec.level == Info && rec.statusCode == Ok)
    && (rec.logType == Commit ==> (rec.level == Info <==> rec.statusCode == Ok))
    && rec.clientPort == 0 && rec.serverPort == 0 && rec.serverIp == "127.0.0.1"
  }

  /** A request's records: a prepare, then a commit or an abort. */
  datatype Builder =
    | PrepareCall(uuid: string, now: int, peer: string, op: OperationType, params: string)
    | CommitCall(uuid: string, now: int, peer: string, op: OperationType, params: string,
                 code: StatusCode, durationMs: int, errorMessage: string)
    | AbortCall(uuid: string, now: int, peer: string, op: OperationType, code: StatusCode,
                reason: string, durationMs: int)

  /** The log after a series of builder calls, oldest first. */
  function Apply(log: seq<AccessRecord>, calls: seq<Builder>): seq<AccessRecord>
    decreases |calls|
  {
    if calls == [] then log
    else
      var next := match calls[0]
        case PrepareCall(u, t, p, o, ps) => LogPrepare(log, u, t, p, o, ps)
        case CommitCall(u, t, p, o, ps, c, d, m) => LogCommit(log, u, t, p, o, ps, c, d, m)
        case AbortCall(u, t, p, o, c, m, d) => LogAbort(log, u, t, p, o, c, m, d);
      Apply(next, calls[1..])
  }

  /** Each builder call hands exactly one record to the logger, so a series
      of calls adds one record per call, each consistent, and keeps what was
      logged before. */
  lemma {:induction false} OneRecordPerCall(log: seq<AccessRecord>, calls: seq<Builder>)
    requires forall i :: 0 <= i < |log| ==> Consistent(log[i])
    ensures |Apply(log, calls)| == |log| + |calls|
    ensures Apply(log, calls)[..|log|] == log
    ensures forall i :: 0 <= i < |Apply(log, calls)| ==> Consistent(Apply(log, calls)[i])
    decreases |calls|
  {
    if calls != [] {
      var next := match calls[0]
        case PrepareCall(u, t, p, o, ps) => LogPrepare(log, u, t, p, o, ps)
        case CommitCall(u, t, p, o, ps, c, d, m) => LogCommit(log, u, t, p, o, ps, c, d, m)
        case AbortCall(u, t, p, o, c, m, d) => LogAbort(log, u, t, p, o, c, m, d);
      assert Consistent(next[|log|]);
      assert forall i :: 0 <= i < |next| ==> Consistent(next[i]) by {
        forall i | 0 <= i < |next| ensures Consistent(next[i]) {
          if i < |log| {
            assert next[i] == next[..|log|][i];
          }
        }
      }
      OneRecordPerCall(next, calls[1..]);
      var r := Apply(next, calls[1..]);
      assert r[..|log|] == r[..|next|][..|log|];
    }
  }
}
