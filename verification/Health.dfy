/**
 * backend/routes/health.js: GET /api/health fills in one status per
 * dependency, in order, and answers 200 when every status is "ok" and 503
 * otherwise.
 */
module Health {
  import opened FileSystem

  const StatusOk: string := "ok"
  const StatusUnknown: string := "unknown"
  const StatusUnreachable: string := "unreachable"
  const StatusError: string := "error"
  const ServiceName: string := "REBAG"

  /** How a probe's promise settles: with true, with false, or by throwing. */
  datatype Probe = Answered(up: bool) | Threw

  /** The `checks` object, its fields in insertion order. */
  datatype Checks = Checks(backend: string, redis: string, mlService: string, disk: string)

  /** Object.values(checks). */
  function Values(c: Checks): seq<string> {
    [c.backend, c.redis, c.mlService, c.disk]
  }

  datatype Response = Response(status: int, success: bool, service: string, timestamp: string, checks: Checks)

  /** `await probe() ? 'ok' : 'unreachable'`, with 'error' from the catch. */
  function ProbeStatus(p: Probe): (s: string)
    ensures s == StatusOk <==> p == Answered(true)
    ensures s == StatusUnreachable <==> p == Answered(false)
    ensures s == StatusError <==> p.Threw?
  {
    match p
    case Answered(up) => if up then StatusOk else StatusUnreachable
    case Threw => StatusError
  }

  /** checkRedis(): a placeholder that always resolves with true. */
  function CheckRedis(): Probe {
    Answered(true)
  }

  /** `values.every(v => v === 'ok')`. */
  function Every(values: seq<string>, v: string): (r: bool)
    ensures r <==> forall i :: 0 <= i < |values| ==> values[i] == v
  {
    if values == [] then true
    else values[0] == v && Every(values[1..], v)
  }

  /**
   * The GET handler. `mlService` is how checkMLService settles; the disk
   * check ensures TEMP_DIR exists, creating it when missing, and reports
   * "error" only when mkdir throws. Every check gets a definite status, and
   * the answer is 200 with success exactly when all four are "ok": when the
   * ML service answers true and TEMP_DIR exists or can be created, Redis
   * never spoiling it.
   */
  method GetHealth(mlService: Probe, disk: Disk, tempDir: Path, now: int, timestamp: string) returns (res: Response)
    requires disk.Valid()
    modifies disk
    ensures disk.Valid()
    ensures var ready := Ensured(old(disk.nodes), tempDir, now);
      disk.nodes == if ready.Some? then ready.value else old(disk.nodes)
    ensures res.checks.backend == StatusOk && res.checks.redis == StatusOk
    ensures res.checks.mlService == ProbeStatus(mlService)
    ensures res.checks.disk == if Ensured(old(disk.nodes), tempDir, now).Some? then StatusOk else StatusError
    ensures forall i :: 0 <= i < |Values(res.checks)| ==> Values(res.checks)[i] != StatusUnknown
    ensures res.success <==> forall i :: 0 <= i < |Values(res.checks)| ==> Values(res.checks)[i] == StatusOk
    ensures res.success <==> mlService == Answered(true) && Ensured(old(disk.nodes), tempDir, now).Some?
    ensures res.status == if res.success then 200 else 503
    ensures res.service == ServiceName && res.timestamp == timestamp
  {
    var checks := Checks(StatusOk, StatusUnknown, StatusUnknown, StatusUnknown);
    checks := checks.(redis := ProbeStatus(CheckRedis()));
    checks := checks.(mlService := ProbeStatus(mlService));
    var ok := disk.EnsureDir(tempDir, now);
    checks := checks.(disk := if ok then StatusOk else StatusError);
    var allOk := Every(Values(checks), StatusOk);
    res := Response(if allOk then 200 else 503, allOk, ServiceName, timestamp, checks);
    assert Values(checks)[2] == ProbeStatus(mlService);
    assert Values(checks)[3] == if ok then StatusOk else StatusError;
  }
}
