/**
 * The trusted-key cell and the background task that refreshes it
 * (src/key_rotator.rs).
 *
 * Time is a count of whole seconds on the monotonic clock that
 * `std::time::Instant` reads. The decoding key is a type parameter `K`:
 * building one from a PEM certificate is a foreign library call, passed in
 * as `fromRsaPem`.
 */
module KeyRotator {
  import opened Wrappers
  import opened Json

  /** Pause after a successful refresh: 24 hours. */
  const KEY_ROTATE_INTERVAL_SECS: nat := 3600 * 24

  /** Age at which a fetched key counts as expired: 3 days. */
  const KEY_EXPIRY_SECS: nat := 3600 * 24 * 3

  /** `JwksData`: a decoding key and the instant it was fetched. */
  datatype JwksData<K> = JwksData(key: K, fetchedAt: nat)

  /** The error `get_key` raises. */
  datatype KeyError = KeyIsExpired

  /**
   * The ways `fetch_jwks` fails: the request, the JSON body, the
   * `public_cert.cert` field, or the PEM it holds.
   */
  datatype FetchError = RequestFailed | BodyNotJson | CertMissing | InvalidPem

  /**
   * `Instant::elapsed().as_secs()`: whole seconds since `since`, zero when
   * the clock reads earlier than `since` (the subtraction saturates).
   */
  function ElapsedSecs(since: nat, now: nat): nat
  {
    if now >= since then now - since else 0
  }

  /** `JwksData::is_expired`: at least three days have elapsed since the fetch. */
  predicate IsExpired<K>(d: JwksData<K>, now: nat)
    ensures IsExpired(d, now) <==> now >= d.fetchedAt + KEY_EXPIRY_SECS
  {
    ElapsedSecs(d.fetchedAt, now) >= KEY_EXPIRY_SECS
  }

  /** `JwksData::get_key`: the stored key, unless the record has expired. */
  function GetKey<K>(d: JwksData<K>, now: nat): (r: Result<K, KeyError>)
    ensures r.Err? <==> now >= d.fetchedAt + KEY_EXPIRY_SECS
    ensures r.Ok? ==> r.value == d.key
  {
    if IsExpired(d, now) then Err(KeyIsExpired) else Ok(d.key)
  }

  /** Once a record has expired it stays expired as the clock moves on. */
  lemma ExpiryIsPermanent<K>(d: JwksData<K>, now: nat, later: nat)
    requires IsExpired(d, now) && now <= later
    ensures IsExpired(d, later) && GetKey(d, later).Err?
  {
  }

  /**
   * The shape check inside `fetch_jwks`: `jwks["public_cert"]["cert"].as_str()`,
   * or `CertMissing`.
   */
  function CertOf(jwks: Value): (r: Result<string, FetchError>)
    ensures r.Ok? <==>
      && jwks.JObject? && "public_cert" in jwks.fields
      && jwks.fields["public_cert"].JObject? && "cert" in jwks.fields["public_cert"].fields
      && jwks.fields["public_cert"].fields["cert"].JString?
    ensures r.Ok? ==> jwks.fields["public_cert"].fields["cert"] == JString(r.value)
    ensures r.Err? ==> r.error == CertMissing
  {
    match AsStr(Index(Index(jwks, "public_cert"), "cert"))
    case Some(cert) => Ok(cert)
    case None => Err(CertMissing)
  }

  /** A certs document holding `cert` under `public_cert` yields exactly `cert`, whatever else it holds. */
  lemma CertOfCertsDocument(cert: string, others: map<string, Value>, inner: map<string, Value>)
    ensures CertOf(JObject(others["public_cert" := JObject(inner["cert" := JString(cert)])])) == Ok(cert)
  {
  }

  /**
   * `fetch_jwks`, given the outcome of the HTTP request and JSON parse as
   * `response`, the PEM decoder as `fromRsaPem`, and the clock reading `now`.
   */
  function FetchJwks<K>(response: Result<Value, FetchError>, fromRsaPem: string -> Option<K>, now: nat)
    : (r: Result<JwksData<K>, FetchError>)
    ensures response.Err? ==> r == Err(response.error)
    ensures r.Ok? <==>
      && response.Ok? && CertOf(response.value).Ok?
      && fromRsaPem(CertOf(response.value).value).Some?
    ensures r.Ok? ==> r.value == JwksData(fromRsaPem(CertOf(response.value).value).value, now)
    ensures r.Ok? ==> !IsExpired(r.value, now)
  {
    match response
    case Err(e) => Err(e)
    case Ok(jwks) =>
      match CertOf(jwks)
      case Err(e) => Err(e)
      case Ok(cert) =>
        match fromRsaPem(cert)
        case None => Err(InvalidPem)
        case Some(key) => Ok(JwksData(key, now))
  }

  /**
   * The process-wide `KEY` cell, `Mutex<Option<JwksData>>`. The lock is not
   * modelled: a read or a write of `slot` stands for one critical section.
   */
  class KeyCell<K> {
    var slot: Option<JwksData<K>>

    /** The cell starts empty. */
    constructor ()
      ensures slot == None
    {
      slot := None;
    }

    /** `Option::replace`: install `record` and hand back what was there. */
    method Replace(record: JwksData<K>) returns (previous: Option<JwksData<K>>)
      modifies this
      ensures slot == Some(record)
      ensures previous == old(slot)
    {
      previous := slot;
      slot := Some(record);
    }
  }

  /** The cell's contents after one iteration that fetched `fetched`. */
  function NextSlot<K>(slot: Option<JwksData<K>>, fetched: Result<JwksData<K>, FetchError>): Option<JwksData<K>>
  {
    if fetched.Ok? then Some(fetched.value) else slot
  }

  /** The sleep that ends one iteration: a day after a success, none after a failure. */
  function DelayAfter<K>(fetched: Result<JwksData<K>, FetchError>): nat
  {
    if fetched.Ok? then KEY_ROTATE_INTERVAL_SECS else 0
  }

  /**
   * One iteration of the loop in `rotate_keys_periodically`. On failure the
   * cell is left alone and the next iteration starts at once (`continue`);
   * on success the cell is overwritten with the new record and the task
   * then sleeps for `sleepSecs`.
   */
  method RotateStep<K>(cell: KeyCell<K>, response: Result<Value, FetchError>, fromRsaPem: string -> Option<K>, now: nat)
    returns (sleepSecs: nat)
    modifies cell
    ensures cell.slot == NextSlot(old(cell.slot), FetchJwks(response, fromRsaPem, now))
    ensures sleepSecs == DelayAfter(FetchJwks(response, fromRsaPem, now))
    ensures FetchJwks(response, fromRsaPem, now).Err? ==> cell.slot == old(cell.slot) && sleepSecs == 0
    ensures FetchJwks(response, fromRsaPem, now).Ok? ==>
      && cell.slot == Some(FetchJwks(response, fromRsaPem, now).value)
      && cell.slot.value.fetchedAt == now
      && sleepSecs == KEY_ROTATE_INTERVAL_SECS
  {
    var fetched := FetchJwks(response, fromRsaPem, now);
    if fetched.Err? {
      return 0;
    }
    var _ := cell.Replace(fetched.value);
    sleepSecs := KEY_ROTATE_INTERVAL_SECS;
  }

  /** What the I/O of one iteration delivered, and the clock reading when it did. */
  datatype Attempt = Attempt(response: Result<Value, FetchError>, at: nat)

  /** The fetch results of a run of iterations. */
  function Outcomes<K>(attempts: seq<Attempt>, fromRsaPem: string -> Option<K>): seq<Result<JwksData<K>, FetchError>>
  {
    seq(|attempts|, i requires 0 <= i < |attempts| => FetchJwks(attempts[i].response, fromRsaPem, attempts[i].at))
  }

  /** The cell after iterations with results `fs`, starting from `slot`. */
  function SlotAfter<K>(slot: Option<JwksData<K>>, fs: seq<Result<JwksData<K>, FetchError>>): Option<JwksData<K>>
    decreases |fs|
  {
    if fs == [] then slot else SlotAfter(NextSlot(slot, fs[0]), fs[1..])
  }

  /** The total time slept over iterations with results `fs`. */
  function TotalDelay<K>(fs: seq<Result<JwksData<K>, FetchError>>): nat
    decreases |fs|
  {
    if fs == [] then 0 else DelayAfter(fs[0]) + TotalDelay(fs[1..])
  }

  /** How many of the iterations installed a record. */
  function Installs<K>(fs: seq<Result<JwksData<K>, FetchError>>): nat
    decreases |fs|
  {
    if fs == [] then 0 else (if fs[0].Ok? then 1 else 0) + Installs(fs[1..])
  }

  /** The record fetched by the last successful iteration, if any. */
  function LastInstalled<K>(fs: seq<Result<JwksData<K>, FetchError>>): Option<JwksData<K>>
    decreases |fs|
  {
    if fs == [] then None
    else if LastInstalled(fs[1..]).Some? then LastInstalled(fs[1..])
    else if fs[0].Ok? then Some(fs[0].value)
    else None
  }

  /**
   * A run of `|attempts|` iterations of the rotation loop (the real loop
   * never ends). Returns the total time slept.
   */
  method RotateFor<K>(cell: KeyCell<K>, attempts: seq<Attempt>, fromRsaPem: string -> Option<K>)
    returns (slept: nat)
    modifies cell
    ensures cell.slot == SlotAfter(old(cell.slot), Outcomes(attempts, fromRsaPem))
    ensures slept == TotalDelay(Outcomes(attempts, fromRsaPem))
  {
    ghost var fs := Outcomes(attempts, fromRsaPem);
    slept := 0;
    var i := 0;
    while i < |attempts|
      invariant 0 <= i <= |attempts|
      invariant SlotAfter(cell.slot, fs[i..]) == SlotAfter(old(cell.slot), fs)
      invariant slept + TotalDelay(fs[i..]) == TotalDelay(fs)
    {
      assert fs[i..][0] == fs[i] && fs[i..][1..] == fs[i + 1..];
      var pause := RotateStep(cell, attempts[i].response, fromRsaPem, attempts[i].at);
      slept := slept + pause;
      i := i + 1;
    }
  }

  /** Once the cell holds a record, no run of iterations empties it again. */
  lemma {:induction false} SlotNeverCleared<K>(slot: Option<JwksData<K>>, fs: seq<Result<JwksData<K>, FetchError>>)
    requires slot.Some?
    ensures SlotAfter(slot, fs).Some?
    decreases |fs|
  {
    if fs != [] {
      SlotNeverCleared(NextSlot(slot, fs[0]), fs[1..]);
    }
  }

  /**
   * After a run, the cell holds exactly the record of the last successful
   * fetch; every earlier record has been discarded. Without any success the
   * cell is as it was.
   */
  lemma {:induction false} SlotIsLastInstalled<K>(slot: Option<JwksData<K>>, fs: seq<Result<JwksData<K>, FetchError>>)
    ensures SlotAfter(slot, fs) == if LastInstalled(fs).Some? then LastInstalled(fs) else slot
    decreases |fs|
  {
    if fs != [] {
      SlotIsLastInstalled(NextSlot(slot, fs[0]), fs[1..]);
    }
  }

  /** Failed fetches never sleep: the total pause is one interval per installed record. */
  lemma {:induction false} SleepOnlyAfterInstall<K>(fs: seq<Result<JwksData<K>, FetchError>>)
    ensures TotalDelay(fs) == KEY_ROTATE_INTERVAL_SECS * Installs(fs)
    decreases |fs|
  {
    if fs != [] {
      SleepOnlyAfterInstall(fs[1..]);
    }
  }

  /** A successful iteration is the only way a record reaches the cell. */
  lemma {:induction false} NoInstallNoRecord<K>(fs: seq<Result<JwksData<K>, FetchError>>)
    requires Installs(fs) == 0
    ensures LastInstalled(fs) == None
    ensures SlotAfter(None, fs) == None
    decreases |fs|
  {
    if fs != [] {
      NoInstallNoRecord(fs[1..]);
    }
    SlotIsLastInstalled(None, fs);
  }

  /**
   * The installed record was stamped by the fetch that produced it: it
   * carries the clock reading of one of the attempts.
   */
  lemma {:induction false} InstalledRecordStamped<K>(attempts: seq<Attempt>, fromRsaPem: string -> Option<K>)
    requires LastInstalled(Outcomes(attempts, fromRsaPem)).Some?
    ensures exists i :: 0 <= i < |attempts| && LastInstalled(Outcomes(attempts, fromRsaPem)).value.fetchedAt == attempts[i].at
    decreases |attempts|
  {
    var fs := Outcomes(attempts, fromRsaPem);
    assert Outcomes(attempts[1..], fromRsaPem) == fs[1..];
    if LastInstalled(fs[1..]).Some? {
      InstalledRecordStamped(attempts[1..], fromRsaPem);
      var i :| 0 <= i < |attempts[1..]| && LastInstalled(fs[1..]).value.fetchedAt == attempts[1..][i].at;
      assert attempts[1..][i] == attempts[i + 1];
    } else {
      assert LastInstalled(fs).value.fetchedAt == attempts[0].at;
    }
  }
}
