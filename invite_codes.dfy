/** The invite-code registry (`LRFO_Invite_Codes`): the codes table, the usage ledger it
    writes, and the operations over both. Each operation is a pure function on `Tables`
    (the specification, with its properties proved as lemmas) and a method of `Registry`
    that performs the same steps in place and is proved against that function. */
module InviteCodes {
  import opened Php
  import opened UsageLedger

  /** One row of `lrfo_invite_codes`. `hash` is the stored `code_string` column (the hash of the
      normalised text, never the text). `isActive` is the integer column, which
      `update_code` may set to any `absint`; the queries look for exactly 1. */
  datatype Code = Code(
    id: nat,
    hash: string,
    usageLimit: nat,
    usesRemaining: nat,
    totalUses: nat,
    expiry: Option<nat>,
    role: string,
    createdAt: int,
    isActive: nat)

  /** Both tables, in insertion order, and the auto-increment counter of the codes table. */
  datatype Tables = Tables(codes: seq<Code>, usage: seq<Attempt>, nextId: nat)

  /** What `create_code` stores besides the hash: `absint($usage_limit)`, the expiry timestamp
      (falsy, i.e. null or 0, means none) and the sanitised role. */
  datatype CodeTerms = CodeTerms(usageLimit: nat, expiry: nat, role: string)

  const DefaultTerms := CodeTerms(1, 0, "subscriber")

  /** Side effects that happen outside the tables. */
  datatype Notice = Notice(totalUses: nat, role: string, createdAt: int)
  datatype Event =
    | DeletionScheduled(codeId: nat, runAt: int)
    | ExhaustedNotice(to: string, notice: Notice)

  /** `notify_code_exhausted` (default '1') and `notification_email` (default the admin address). */
  datatype NotifySettings = NotifySettings(enabled: Value, email: string)

  /** `24 * HOUR_IN_SECONDS`. */
  const DeletionDelay: int := 24 * 3600
  const MaxBulk: nat := 1000

  // ================================================================ normalisation

  /** What `hash_code` hashes: `strtoupper(trim($code_string))`. */
  function Normalize(s: string): string
  {
    Upper(Trim(s))
  }

  lemma NormalizeIdempotent(s: string)
    ensures Normalize(Normalize(s)) == Normalize(s)
  {
    UpperTrim(Trim(s));
    TrimIdempotent(s);
    UpperIdempotent(Trim(Trim(s)));
  }

  /** Text that differs only in letter case and surrounding whitespace normalises alike,
      so it hashes alike and names the same code. */
  lemma NormalizeIgnoresCaseAndPadding(w1: string, s: string, w2: string, t: string)
    requires AllTrimmed(w1) && AllTrimmed(w2)
    requires Upper(s) == Upper(t)
    ensures Normalize(w1 + s + w2) == Normalize(t)
  {
    TrimIgnoresPadding(w1, s, w2);
    UpperTrim(s);
    UpperTrim(t);
  }

  // ================================================================ table helpers

  predicate HasId(codes: seq<Code>, id: nat)
  {
    exists k :: 0 <= k < |codes| && codes[k].id == id
  }

  predicate HashTaken(codes: seq<Code>, h: string)
  {
    exists k :: 0 <= k < |codes| && codes[k].hash == h
  }

  /** The consistency the tables keep: ids are issued in increasing order below the counter,
      hashes are unique (the unique key on `code_string`), and every ledger row that names a
      code names an existing one. */
  ghost predicate ValidTables(t: Tables)
  {
    && t.nextId >= 1
    && (forall k :: 0 <= k < |t.codes| ==> 1 <= t.codes[k].id < t.nextId)
    && (forall j, k :: 0 <= j < k < |t.codes| ==> t.codes[j].id < t.codes[k].id)
    && (forall j, k :: 0 <= j < k < |t.codes| ==> t.codes[j].hash != t.codes[k].hash)
    && (forall k :: 0 <= k < |t.usage| && t.usage[k].codeId.Some? ==> HasId(t.codes, t.usage[k].codeId.value))
  }

  /** `SELECT * ... WHERE code_string = h AND is_active = 1`: the first such row. */
  function FindByHash(codes: seq<Code>, h: string): (r: Option<Code>)
    ensures r.Some? ==> r.value in codes && r.value.hash == h && r.value.isActive == 1
    ensures r.None? ==> forall k :: 0 <= k < |codes| && codes[k].hash == h ==> codes[k].isActive != 1
  {
    if codes == [] then None
    else if codes[0].hash == h && codes[0].isActive == 1 then Some(codes[0])
    else FindByHash(codes[1..], h)
  }

  /** `SELECT * ... WHERE id = id AND is_active = 1`: the first such row. */
  function FindActive(codes: seq<Code>, id: nat): (r: Option<Code>)
    ensures r.Some? ==> r.value in codes && r.value.id == id && r.value.isActive == 1
    ensures r.None? ==> forall k :: 0 <= k < |codes| && codes[k].id == id ==> codes[k].isActive != 1
  {
    if codes == [] then None
    else if codes[0].id == id && codes[0].isActive == 1 then Some(codes[0])
    else FindActive(codes[1..], id)
  }

  /** Under unique hashes, an active row is exactly what the hash lookup returns. */
  lemma {:induction false} FindByHashOf(codes: seq<Code>, k: nat)
    requires k < |codes| && codes[k].isActive == 1
    requires forall i, j :: 0 <= i < j < |codes| ==> codes[i].hash != codes[j].hash
    ensures FindByHash(codes, codes[k].hash) == Some(codes[k])
  {
    if k > 0 {
      FindByHashOf(codes[1..], k - 1);
    }
  }

  /** Under unique ids, an active row is exactly what the id lookup returns. */
  lemma {:induction false} FindActiveOf(codes: seq<Code>, k: nat)
    requires k < |codes| && codes[k].isActive == 1
    requires forall i, j :: 0 <= i < j < |codes| ==> codes[i].id < codes[j].id
    ensures FindActive(codes, codes[k].id) == Some(codes[k])
  {
    if k > 0 {
      FindActiveOf(codes[1..], k - 1);
    }
  }

  /** `UPDATE ... SET f(row) WHERE id = id`. */
  function UpdateRows(codes: seq<Code>, id: nat, f: Code -> Code): (r: seq<Code>)
    ensures |r| == |codes|
    ensures forall k :: 0 <= k < |codes| ==> r[k] == if codes[k].id == id then f(codes[k]) else codes[k]
  {
    if codes == [] then []
    else [if codes[0].id == id then f(codes[0]) else codes[0]] + UpdateRows(codes[1..], id, f)
  }

  // ================================================================ create_code

  /** The row `create_code` inserts: all uses remaining, none taken, active. */
  function NewCode(id: nat, h: string, terms: CodeTerms, now: int): Code
  {
    Code(id, h, terms.usageLimit, terms.usageLimit, 0,
         if terms.expiry == 0 then None else Some(terms.expiry),
         terms.role, now, 1)
  }

  /** `create_code` on the hash of the normalised text: the insert fails (and the function
      returns false) when the hash is already stored or the store refuses the write. */
  function Create(t: Tables, h: string, terms: CodeTerms, now: int, accepted: bool): (r: (Tables, Option<nat>))
  {
    if HashTaken(t.codes, h) || !accepted then (t, None)
    else (t.(codes := t.codes + [NewCode(t.nextId, h, terms, now)], nextId := t.nextId + 1), Some(t.nextId))
  }

  /** A create keeps the tables consistent. */
  lemma CreateValid(t: Tables, h: string, terms: CodeTerms, now: int, accepted: bool)
    requires ValidTables(t)
    ensures ValidTables(Create(t, h, terms, now, accepted).0)
  {
    var (t', id) := Create(t, h, terms, now, accepted);
    if id.Some? {
      forall k | 0 <= k < |t'.usage| && t'.usage[k].codeId.Some?
        ensures HasId(t'.codes, t'.usage[k].codeId.value)
      {
        var j :| 0 <= j < |t.codes| && t.codes[j].id == t.usage[k].codeId.value;
        assert t'.codes[j] == t.codes[j];
      }
    }
  }

  /** What a successful create leaves behind: a fresh id, a record with every use remaining,
      found by its hash; a failed create changes nothing. */
  lemma CreateSpec(t: Tables, h: string, terms: CodeTerms, now: int, accepted: bool)
    requires ValidTables(t)
    ensures var (t', id) := Create(t, h, terms, now, accepted);
      && ValidTables(t')
      && (id.Some? <==> !HashTaken(t.codes, h) && accepted)
      && (id.None? ==> t' == t)
      && (id.Some? ==>
            && id.value >= 1 && !HasId(t.codes, id.value)
            && t'.usage == t.usage
            && t'.codes == t.codes + [NewCode(id.value, h, terms, now)]
            && FindByHash(t'.codes, h) == Some(NewCode(id.value, h, terms, now)))
  {
    CreateValid(t, h, terms, now, accepted);
    var (t', id) := Create(t, h, terms, now, accepted);
    if id.Some? {
      var c := NewCode(t.nextId, h, terms, now);
      assert t'.codes[|t.codes|] == c;
      FindByHashOf(t'.codes, |t.codes|);
    }
  }

  // ================================================================ bulk_generate_codes

  /** The text generated in round `i`: `$prefix . '-' . strtoupper(<8 random characters>)`. */
  function BulkText(prefix: string, suffix: nat -> string, i: nat): string
  {
    prefix + "-" + Upper(suffix(i))
  }

  /** `hash_code` as a function value. */
  function HashOf(hash: string -> string): string -> string
  {
    s => hash(Normalize(s))
  }

  /** The first `i` rounds of `bulk_generate_codes`: each calls `create_code`; a failed insert
      is skipped and the loop goes on. Returns the tables and the (id, text) pairs generated. */
  function BulkRun(t: Tables, i: nat, terms: CodeTerms, prefix: string, suffix: nat -> string,
                   codeHash: string -> string, now: int, accepted: nat -> bool): (Tables, seq<(nat, string)>)
  {
    if i == 0 then (t, [])
    else
      var prev := BulkRun(t, i - 1, terms, prefix, suffix, codeHash, now, accepted);
      var text := BulkText(prefix, suffix, i - 1);
      var created := Create(prev.0, codeHash(text), terms, now, accepted(i - 1));
      (created.0, prev.1 + (if created.1.Some? then [(created.1.value, text)] else []))
  }

  /** The rows that the pairs returned by a bulk run stand for. */
  function Records(gen: seq<(nat, string)>, terms: CodeTerms, codeHash: string -> string, now: int): (r: seq<Code>)
    ensures |r| == |gen|
    ensures forall k :: 0 <= k < |gen| ==> r[k] == NewCode(gen[k].0, codeHash(gen[k].1), terms, now)
  {
    if gen == [] then []
    else [NewCode(gen[0].0, codeHash(gen[0].1), terms, now)] + Records(gen[1..], terms, codeHash, now)
  }

  /** A bulk run of `i` rounds returns at most `i` pairs, leaves the ledger alone and grows the
      codes table by exactly the returned pairs, in order. */
  lemma {:induction false} BulkSpec(t: Tables, i: nat, terms: CodeTerms, prefix: string, suffix: nat -> string,
                                    codeHash: string -> string, now: int, accepted: nat -> bool)
    ensures var (t', gen) := BulkRun(t, i, terms, prefix, suffix, codeHash, now, accepted);
      && |gen| <= i
      && t'.usage == t.usage
      && t'.codes == t.codes + Records(gen, terms, codeHash, now)
  {
    if i > 0 {
      BulkSpec(t, i - 1, terms, prefix, suffix, codeHash, now, accepted);
      var prev := BulkRun(t, i - 1, terms, prefix, suffix, codeHash, now, accepted);
      var text := BulkText(prefix, suffix, i - 1);
      var created := Create(prev.0, codeHash(text), terms, now, accepted(i - 1));
      var head: seq<(nat, string)> := if created.1.Some? then [(created.1.value, text)] else [];
      assert created.0.codes == prev.0.codes + Records(head, terms, codeHash, now);
      RecordsConcat(prev.1, head, terms, codeHash, now);
    }
  }

  lemma RecordsConcat(a: seq<(nat, string)>, b: seq<(nat, string)>, terms: CodeTerms, codeHash: string -> string, now: int)
    ensures Records(a + b, terms, codeHash, now) == Records(a, terms, codeHash, now) + Records(b, terms, codeHash, now)
  {
    var all := Records(a + b, terms, codeHash, now);
    var ra := Records(a, terms, codeHash, now);
    var rb := Records(b, terms, codeHash, now);
    forall k | 0 <= k < |all| ensures all[k] == (ra + rb)[k] {
      if k < |a| { assert (a + b)[k] == a[k]; } else { assert (a + b)[k] == b[k - |a|]; }
    }
  }

  /** A bulk run keeps the tables consistent. */
  lemma {:induction false} BulkValid(t: Tables, i: nat, terms: CodeTerms, prefix: string, suffix: nat -> string,
                                     codeHash: string -> string, now: int, accepted: nat -> bool)
    requires ValidTables(t)
    ensures ValidTables(BulkRun(t, i, terms, prefix, suffix, codeHash, now, accepted).0)
  {
    if i > 0 {
      BulkValid(t, i - 1, terms, prefix, suffix, codeHash, now, accepted);
      var prev := BulkRun(t, i - 1, terms, prefix, suffix, codeHash, now, accepted);
      CreateValid(prev.0, codeHash(BulkText(prefix, suffix, i - 1)), terms, now, accepted(i - 1));
    }
  }

  /** The rounds among the first `i` whose insert succeeded, in order. */
  function BulkRounds(t: Tables, i: nat, terms: CodeTerms, prefix: string, suffix: nat -> string,
                      codeHash: string -> string, now: int, accepted: nat -> bool): seq<nat>
  {
    if i == 0 then []
    else
      var prev := BulkRun(t, i - 1, terms, prefix, suffix, codeHash, now, accepted);
      var created := Create(prev.0, codeHash(BulkText(prefix, suffix, i - 1)), terms, now, accepted(i - 1));
      BulkRounds(t, i - 1, terms, prefix, suffix, codeHash, now, accepted) + (if created.1.Some? then [i - 1] else [])
  }

  /** Pair `k` carries the text of round `js[k]`, a round below `n`, and the rounds strictly
      increase along the pairs. */
  predicate FromRounds(gen: seq<(nat, string)>, js: seq<nat>, n: nat, prefix: string, suffix: nat -> string)
  {
    && |js| == |gen|
    && (forall k :: 0 <= k < |js| ==> js[k] < n && gen[k].1 == BulkText(prefix, suffix, js[k]))
    && (forall j, k :: 0 <= j < k < |js| ==> js[j] < js[k])
  }

  /** Each text a bulk run returns is the prefix, a dash and the upper-cased suffix of one of
      its rounds, one pair per successful round, in the order of the rounds. */
  lemma {:induction false} BulkTexts(t: Tables, i: nat, terms: CodeTerms, prefix: string, suffix: nat -> string,
                                     codeHash: string -> string, now: int, accepted: nat -> bool)
    ensures FromRounds(BulkRun(t, i, terms, prefix, suffix, codeHash, now, accepted).1,
                       BulkRounds(t, i, terms, prefix, suffix, codeHash, now, accepted), i, prefix, suffix)
  {
    if i > 0 {
      BulkTexts(t, i - 1, terms, prefix, suffix, codeHash, now, accepted);
      var prev := BulkRun(t, i - 1, terms, prefix, suffix, codeHash, now, accepted);
      var prevJs := BulkRounds(t, i - 1, terms, prefix, suffix, codeHash, now, accepted);
      var text := BulkText(prefix, suffix, i - 1);
      var created := Create(prev.0, codeHash(text), terms, now, accepted(i - 1));
      var head: seq<(nat, string)> := if created.1.Some? then [(created.1.value, text)] else [];
      var headJs: seq<nat> := if created.1.Some? then [i - 1] else [];
      var gen := prev.1 + head;
      var js := prevJs + headJs;
      assert gen == BulkRun(t, i, terms, prefix, suffix, codeHash, now, accepted).1;
      assert js == BulkRounds(t, i, terms, prefix, suffix, codeHash, now, accepted);
      forall k | 0 <= k < |js|
        ensures js[k] < i && gen[k].1 == BulkText(prefix, suffix, js[k])
      {
        if k < |prevJs| {
          assert gen[k] == prev.1[k] && js[k] == prevJs[k];
        } else {
          assert gen[k].1 == text && js[k] == i - 1;
        }
      }
      forall j, k | 0 <= j < k < |js|
        ensures js[j] < js[k]
      {
        if k < |prevJs| {
          assert js[j] == prevJs[j] && js[k] == prevJs[k];
        } else {
          assert js[j] == prevJs[j] && js[k] == i - 1;
        }
      }
    }
  }

  /** A round's text is the prefix, a dash and the 8-character suffix, upper-cased. */
  lemma BulkTextLength(prefix: string, suffix: nat -> string, j: nat)
    requires |suffix(j)| == 8
    ensures |BulkText(prefix, suffix, j)| == |prefix| + 9
  {
    UpperSpec(suffix(j));
  }

  /** The hashes stored after a create: the old ones, plus the new one when the insert happened. */
  lemma CreateHashTaken(t: Tables, h: string, terms: CodeTerms, now: int, accepted: bool, x: string)
    ensures var (t', id) := Create(t, h, terms, now, accepted);
      HashTaken(t'.codes, x) <==> HashTaken(t.codes, x) || (id.Some? && x == h)
  {
    var (t', id) := Create(t, h, terms, now, accepted);
    if id.Some? {
      assert t'.codes[|t.codes|].hash == h;
      if HashTaken(t.codes, x) {
        var k :| 0 <= k < |t.codes| && t.codes[k].hash == x;
        assert t'.codes[k] == t.codes[k];
      }
      if HashTaken(t'.codes, x) && x != h {
        var k :| 0 <= k < |t'.codes| && t'.codes[k].hash == x;
        assert t'.codes[k] == t.codes[k];
      }
    }
  }

  /** The hash of round `j`'s text. */
  function RoundHash(prefix: string, suffix: nat -> string, codeHash: string -> string, j: nat): string
  {
    codeHash(BulkText(prefix, suffix, j))
  }

  /** A hash that is not stored and differs from the hashes of the first `i` rounds is still
      free after those rounds. */
  lemma {:induction false} BulkLeavesFree(t: Tables, i: nat, terms: CodeTerms, prefix: string, suffix: nat -> string,
                                          codeHash: string -> string, now: int, accepted: nat -> bool, h: string)
    requires !HashTaken(t.codes, h)
    requires forall j :: 0 <= j < i ==> RoundHash(prefix, suffix, codeHash, j) != h
    ensures !HashTaken(BulkRun(t, i, terms, prefix, suffix, codeHash, now, accepted).0.codes, h)
  {
    BulkSpec(t, i, terms, prefix, suffix, codeHash, now, accepted);
    BulkTexts(t, i, terms, prefix, suffix, codeHash, now, accepted);
    var run := BulkRun(t, i, terms, prefix, suffix, codeHash, now, accepted);
    var recs := Records(run.1, terms, codeHash, now);
    forall k | 0 <= k < |run.0.codes|
      ensures run.0.codes[k].hash != h
    {
      if k < |t.codes| {
        assert run.0.codes[k] == t.codes[k];
      } else {
        var m := k - |t.codes|;
        assert run.0.codes[k] == recs[m];
        var j := BulkRounds(t, i, terms, prefix, suffix, codeHash, now, accepted)[m];
        assert recs[m].hash == RoundHash(prefix, suffix, codeHash, j);
      }
    }
  }

  /** When the store takes every write and no round's text collides with a stored hash or with
      another round's, a run of `i` rounds returns `i` pairs. */
  lemma {:induction false} BulkAllSucceed(t: Tables, i: nat, terms: CodeTerms, prefix: string, suffix: nat -> string,
                                          codeHash: string -> string, now: int, accepted: nat -> bool)
    requires forall j :: 0 <= j < i ==> accepted(j)
    requires forall j :: 0 <= j < i ==> !HashTaken(t.codes, RoundHash(prefix, suffix, codeHash, j))
    requires forall j, j' :: 0 <= j < j' < i ==>
      RoundHash(prefix, suffix, codeHash, j) != RoundHash(prefix, suffix, codeHash, j')
    ensures |BulkRun(t, i, terms, prefix, suffix, codeHash, now, accepted).1| == i
  {
    if i > 0 {
      BulkAllSucceed(t, i - 1, terms, prefix, suffix, codeHash, now, accepted);
      var h := RoundHash(prefix, suffix, codeHash, i - 1);
      BulkLeavesFree(t, i - 1, terms, prefix, suffix, codeHash, now, accepted, h);
      var prev := BulkRun(t, i - 1, terms, prefix, suffix, codeHash, now, accepted);
      var created := Create(prev.0, h, terms, now, accepted(i - 1));
      assert created.1.Some?;
    }
  }

  // ================================================================ validate_code

  datatype ValidateError = EmptyCode | RateLimited | InvalidCode | CodeExhausted | CodeExpired

  datatype Outcome = Accepted(code: Code) | Rejected(error: ValidateError)

  /** `$code['expiry_date'] && time() > $code['expiry_date']`. */
  predicate IsExpired(c: Code, now: int)
  {
    c.expiry.Some? && c.expiry.value != 0 && now > c.expiry.value
  }

  /** `validate_code`: the outcome and the ledger rows it appends. The checks run in a fixed
      order: empty text, rate limit, lookup of an active code by hash, uses left, expiry. */
  function Validate(t: Tables, hash: string -> string, s: string, ip: string, now: int, cfg: RateLimitSettings): (r: (Outcome, seq<Attempt>))
    ensures |r.1| <= 1
    ensures forall k :: 0 <= k < |r.1| ==> r.1[k].kind != Success && r.1[k].userId.None? && r.1[k].ip == ip && r.1[k].at == now
    ensures r.1 == [] <==> r.0.Accepted? || r.0 == Rejected(EmptyCode) || r.0 == Rejected(RateLimited)
    ensures r.0 == Rejected(EmptyCode) <==> EmptyString(s)
    ensures r.0 == Rejected(RateLimited) <==> !EmptyString(s) && IsRateLimited(t.usage, ip, now, cfg)
    ensures r.0 == Rejected(InvalidCode) ==> r.1 == [Attempt(None, ip, Invalid, None, now)]
    ensures r.0 == Rejected(CodeExhausted) ==> |r.1| == 1 && r.1[0].kind == Exhausted
    ensures r.0 == Rejected(CodeExpired) ==> |r.1| == 1 && r.1[0].kind == Expired
    ensures r.0.Accepted? ==>
      && r.0.code in t.codes
      && r.0.code.hash == hash(Normalize(s))
      && r.0.code.isActive == 1
      && r.0.code.usesRemaining > 0
      && !IsExpired(r.0.code, now)
  {
    if EmptyString(s) then (Rejected(EmptyCode), [])
    else if IsRateLimited(t.usage, ip, now, cfg) then (Rejected(RateLimited), [])
    else match FindByHash(t.codes, hash(Normalize(s)))
      case None => (Rejected(InvalidCode), [Attempt(None, ip, Invalid, None, now)])
      case Some(c) =>
        if c.usesRemaining == 0 then (Rejected(CodeExhausted), [Attempt(Nullable(c.id), ip, Exhausted, None, now)])
        else if IsExpired(c, now) then (Rejected(CodeExpired), [Attempt(Nullable(c.id), ip, Expired, None, now)])
        else (Accepted(c), [])
  }

  /** Past the empty-text and rate-limit checks, the lookup by hash decides: no active row is
      an invalid code logged with a NULL id; a row with no uses left is exhausted and a row
      past its expiry is expired, each logged with the row's id; any other row is accepted
      as is, with nothing logged. */
  lemma ValidateAfterLookup(t: Tables, hash: string -> string, s: string, ip: string, now: int, cfg: RateLimitSettings)
    requires !EmptyString(s) && !IsRateLimited(t.usage, ip, now, cfg)
    ensures var r := Validate(t, hash, s, ip, now, cfg);
      var f := FindByHash(t.codes, hash(Normalize(s)));
      && (r.0 == Rejected(InvalidCode) <==> f.None?)
      && (r.0 == Rejected(CodeExhausted) <==> f.Some? && f.value.usesRemaining == 0)
      && (r.0 == Rejected(CodeExpired) <==> f.Some? && f.value.usesRemaining > 0 && IsExpired(f.value, now))
      && (r.0.Accepted? <==> f.Some? && f.value.usesRemaining > 0 && !IsExpired(f.value, now))
      && (r.0.Accepted? ==> r.0.code == f.value && r.1 == [])
      && (f.Some? && !r.0.Accepted? ==>
            r.1 == [Attempt(Nullable(f.value.id), ip, if f.value.usesRemaining == 0 then Exhausted else Expired, None, now)])
  {
  }

  /** A stored active code with uses left and not expired is accepted, whatever its
      position in the table, and nothing is logged. */
  lemma {:induction false} ValidCodeAccepted(t: Tables, hash: string -> string, s: string, ip: string, now: int, cfg: RateLimitSettings, k: nat)
    requires ValidTables(t)
    requires k < |t.codes| && t.codes[k].hash == hash(Normalize(s)) && t.codes[k].isActive == 1
    requires t.codes[k].usesRemaining > 0 && !IsExpired(t.codes[k], now)
    requires !EmptyString(s) && !IsRateLimited(t.usage, ip, now, cfg)
    ensures Validate(t, hash, s, ip, now, cfg) == (Accepted(t.codes[k]), [])
  {
    FindByHashOf(t.codes, k);
  }

  /** Only the normalised text matters: two non-empty texts that normalise alike are
      validated alike. */
  lemma ValidateUpToNormalization(t: Tables, hash: string -> string, s1: string, s2: string, ip: string, now: int, cfg: RateLimitSettings)
    requires !EmptyString(s1) && !EmptyString(s2) && Normalize(s1) == Normalize(s2)
    ensures Validate(t, hash, s1, ip, now, cfg) == Validate(t, hash, s2, ip, now, cfg)
  {
  }

  /** A stored code that is not active (is_active other than 1) is reported as invalid with a
      NULL code id, never as exhausted. */
  lemma InactiveIsInvalid(t: Tables, hash: string -> string, s: string, ip: string, now: int, cfg: RateLimitSettings, k: nat)
    requires ValidTables(t)
    requires k < |t.codes| && t.codes[k].hash == hash(Normalize(s)) && t.codes[k].isActive != 1
    requires !EmptyString(s) && !IsRateLimited(t.usage, ip, now, cfg)
    ensures Validate(t, hash, s, ip, now, cfg) == (Rejected(InvalidCode), [Attempt(None, ip, Invalid, None, now)])
  {
    var h := hash(Normalize(s));
    forall j | 0 <= j < |t.codes| && t.codes[j].hash == h
      ensures j == k
    {
    }
  }

  /** With the rate limit in force, even a valid code is refused, and nothing is logged. */
  lemma RateLimitedBeforeLookup(t: Tables, hash: string -> string, s: string, ip: string, now: int, cfg: RateLimitSettings,
                                strikes: seq<Attempt>)
    requires !EmptyString(s) && !EmptyString(ip) && cfg.enabled == Str("1")
    requires |strikes| >= cfg.attempts
    requires forall k :: 0 <= k < |strikes| ==> CountsAgainst(strikes[k], ip, now - cfg.window * 60)
    ensures Validate(t.(usage := t.usage + strikes), hash, s, ip, now, cfg) == (Rejected(RateLimited), [])
  {
    StrikesLimit(t.usage, strikes, ip, now, cfg);
  }

  // ================================================================ use_code

  /** The row after one use: one fewer remaining, one more taken, active exactly while
      uses remain. */
  function Consumed(c: Code): (r: Code)
    requires c.usesRemaining > 0
    ensures r.usesRemaining + r.totalUses == c.usesRemaining + c.totalUses
    ensures r.usesRemaining + 1 == c.usesRemaining && r.totalUses == c.totalUses + 1
    ensures r.isActive == (if r.usesRemaining > 0 then 1 else 0)
    ensures r.id == c.id && r.hash == c.hash && r.usageLimit == c.usageLimit
    ensures r.expiry == c.expiry && r.role == c.role && r.createdAt == c.createdAt
  {
    var left := c.usesRemaining - 1;
    c.(usesRemaining := left, totalUses := c.totalUses + 1, isActive := if left > 0 then 1 else 0)
  }

  /** The exhausted-code notice, reporting the totals of the row after its last use. */
  function NoticeFor(after: Code): Notice
  {
    Notice(after.totalUses, after.role, after.createdAt)
  }

  /** What the source mails: the row as read before the update, so one use short. */
  function NoticeAsWritten(before: Code): Notice
  {
    Notice(before.totalUses, before.role, before.createdAt)
  }

  lemma NoticeAsWrittenUndercounts(before: Code)
    requires before.usesRemaining == 1
    ensures NoticeAsWritten(before).totalUses + 1 == Consumed(before).totalUses
  {
  }

  /** For a code whose counters add up to its limit, the notice reports the full limit. */
  lemma NoticeReportsAllUses(before: Code)
    requires before.usesRemaining == 1 && before.usesRemaining + before.totalUses == before.usageLimit
    ensures Consumed(before).usesRemaining == 0
    ensures NoticeFor(Consumed(before)).totalUses == before.usageLimit
  {
  }

  datatype UseResult = UseResult(tables: Tables, ok: bool, events: seq<Event>)

  /** The side effects after a use, fired only on the transition to zero remaining uses. */
  function ExhaustionEvents(after: Code, now: int, notify: NotifySettings): seq<Event>
  {
    if after.usesRemaining == 0 then
      [DeletionScheduled(after.id, now + DeletionDelay)]
      + (if notify.enabled == Str("1") then [ExhaustedNotice(notify.email, NoticeFor(after))] else [])
    else []
  }

  /** The events after a use: none while uses remain; on the last use, the deletion of that
      code scheduled `DeletionDelay` seconds later, followed by the notice exactly when
      notifications are enabled ('1'). */
  lemma ExhaustionEventsSpec(after: Code, now: int, notify: NotifySettings)
    ensures var ev := ExhaustionEvents(after, now, notify);
      && (ev != [] <==> after.usesRemaining == 0)
      && (ev != [] ==> ev[0] == DeletionScheduled(after.id, now + DeletionDelay))
      && |ev| == (if after.usesRemaining != 0 then 0 else if notify.enabled == Str("1") then 2 else 1)
      && (forall e :: e in ev && e.ExhaustedNotice? ==> e == ExhaustedNotice(notify.email, NoticeFor(after)))
  {
  }

  /** `use_code`, one atomic step: re-reads the active row by id; fails without any change when
      it is missing, inactive or used up, or when the store refuses the update; otherwise
      consumes one use and logs a success row carrying the user id. */
  function Use(t: Tables, id: nat, userId: nat, ip: string, now: int, notify: NotifySettings, accepted: bool): UseResult
  {
    match FindActive(t.codes, id)
    case None => UseResult(t, false, [])
    case Some(c) =>
      if c.usesRemaining == 0 || !accepted then UseResult(t, false, [])
      else
        var after := Consumed(c);
        UseResult(
          t.(codes := UpdateRows(t.codes, id, _ => after),
             usage := t.usage + [Attempt(Nullable(id), ip, Success, Nullable(userId), now)]),
          true,
          ExhaustionEvents(after, now, notify))
  }

  /** `use_code` keeps the tables consistent, whether it succeeds or not. */
  lemma UseValid(t: Tables, id: nat, userId: nat, ip: string, now: int, notify: NotifySettings, accepted: bool)
    requires ValidTables(t)
    ensures ValidTables(Use(t, id, userId, ip, now, notify, accepted).tables)
  {
    match FindActive(t.codes, id)
    case None =>
    case Some(c) =>
      if c.usesRemaining > 0 && accepted {
        UpdateRowsValid(t, id, _ => Consumed(c));
        var t1 := t.(codes := UpdateRows(t.codes, id, _ => Consumed(c)));
        var j :| 0 <= j < |t.codes| && t.codes[j] == c;
        assert t1.codes[j].id == id;
        AppendValid(t1, Attempt(Nullable(id), ip, Success, Nullable(userId), now));
      }
  }

  /** `use_code` succeeds exactly when an active row with that id has uses left and the
      store accepts the update; a failure changes nothing and fires nothing. */
  lemma UseOutcome(t: Tables, id: nat, userId: nat, ip: string, now: int, notify: NotifySettings, accepted: bool)
    requires ValidTables(t)
    ensures var r := Use(t, id, userId, ip, now, notify, accepted);
      && (r.ok <==> accepted && exists k :: 0 <= k < |t.codes| && t.codes[k].id == id && t.codes[k].isActive == 1 && t.codes[k].usesRemaining > 0)
      && (!r.ok ==> r.tables == t && r.events == [])
  {
    match FindActive(t.codes, id)
    case None =>
    case Some(c) =>
      var j :| 0 <= j < |t.codes| && t.codes[j] == c;
      forall k | 0 <= k < |t.codes| && t.codes[k].id == id
        ensures k == j
      {
      }
  }

  /** A successful `use_code` consumes one use of exactly the named row (keeping uses
      remaining + total uses, active iff uses remain), leaves every other row and the id
      counter, appends one success row with the user id, and fires the deletion and the
      notice exactly when no use remains. */
  lemma UseEffects(t: Tables, id: nat, userId: nat, ip: string, now: int, notify: NotifySettings, accepted: bool)
    requires ValidTables(t)
    ensures var r := Use(t, id, userId, ip, now, notify, accepted);
      r.ok ==>
        && r.tables.nextId == t.nextId
        && |r.tables.codes| == |t.codes|
        && r.tables.usage == t.usage + [Attempt(Some(id), ip, Success, Nullable(userId), now)]
        && (forall k :: 0 <= k < |t.codes| && t.codes[k].id != id ==> r.tables.codes[k] == t.codes[k])
        && (forall k :: 0 <= k < |t.codes| && t.codes[k].id == id ==>
              && r.tables.codes[k] == Consumed(t.codes[k])
              && r.tables.codes[k].usesRemaining + 1 == t.codes[k].usesRemaining
              && r.tables.codes[k].totalUses == t.codes[k].totalUses + 1
              && r.tables.codes[k].usesRemaining + r.tables.codes[k].totalUses == t.codes[k].usesRemaining + t.codes[k].totalUses
              && (r.tables.codes[k].isActive == 1 <==> r.tables.codes[k].usesRemaining > 0)
              && r.events == ExhaustionEvents(r.tables.codes[k], now, notify))
  {
    match FindActive(t.codes, id)
    case None =>
    case Some(c) =>
      var j :| 0 <= j < |t.codes| && t.codes[j] == c;
      forall k | 0 <= k < |t.codes| && t.codes[k].id == id
        ensures k == j
      {
      }
      assert c.id >= 1;
  }

  /** The notice of a last use next to what the source mails for it: the same role and
      creation time, but the source reports the total read before the update, one lower. */
  lemma {:induction false} UseNoticeVersusSource(t: Tables, id: nat, userId: nat, ip: string, now: int, notify: NotifySettings, k: nat)
    requires ValidTables(t)
    requires k < |t.codes| && t.codes[k].id == id && t.codes[k].isActive == 1 && t.codes[k].usesRemaining == 1
    requires notify.enabled == Str("1")
    ensures var r := Use(t, id, userId, ip, now, notify, true);
      var sent := NoticeAsWritten(t.codes[k]);
      && r.ok && |r.events| == 2 && r.events[1].ExhaustedNotice?
      && r.events[1].notice == sent.(totalUses := sent.totalUses + 1)
  {
    FindActiveOf(t.codes, k);
  }

  /** Rewriting rows without touching their ids or hashes keeps the tables consistent. */
  lemma UpdateRowsValid(t: Tables, id: nat, f: Code -> Code)
    requires ValidTables(t)
    requires forall c :: c in t.codes && c.id == id ==> f(c).id == c.id && f(c).hash == c.hash
    ensures ValidTables(t.(codes := UpdateRows(t.codes, id, f)))
  {
    var codes' := UpdateRows(t.codes, id, f);
    forall k | 0 <= k < |codes'|
      ensures codes'[k].id == t.codes[k].id && codes'[k].hash == t.codes[k].hash
    {
      assert t.codes[k] in t.codes;
    }
    SameKeysValid(t, codes');
  }

  /** Consistency only looks at the ids and hashes of the code rows. */
  lemma SameKeysValid(t: Tables, codes': seq<Code>)
    requires ValidTables(t)
    requires |codes'| == |t.codes|
    requires forall k :: 0 <= k < |codes'| ==> codes'[k].id == t.codes[k].id && codes'[k].hash == t.codes[k].hash
    ensures ValidTables(t.(codes := codes'))
  {
    forall k | 0 <= k < |t.usage| && t.usage[k].codeId.Some?
      ensures HasId(codes', t.usage[k].codeId.value)
    {
      var j :| 0 <= j < |t.codes| && t.codes[j].id == t.usage[k].codeId.value;
      assert codes'[j].id == t.codes[j].id;
    }
  }

  /** Appending a ledger row that names nothing or an existing code keeps the tables consistent. */
  lemma AppendValid(t: Tables, a: Attempt)
    requires ValidTables(t)
    requires a.codeId.Some? ==> HasId(t.codes, a.codeId.value)
    ensures ValidTables(t.(usage := t.usage + [a]))
  {
    var u := t.usage + [a];
    forall k | 0 <= k < |u| && u[k].codeId.Some?
      ensures HasId(t.codes, u[k].codeId.value)
    {
      if k < |t.usage| { assert u[k] == t.usage[k]; }
    }
  }

  /** Sequential redemption of a code's last use: the first call succeeds and exhausts the
      code, a second call for the same code fails and changes nothing. */
  lemma {:induction false} LastUseOnlyOnce(t: Tables, k: nat, u1: nat, u2: nat, ip1: string, ip2: string, now: int, notify: NotifySettings)
    requires ValidTables(t)
    requires k < |t.codes| && t.codes[k].isActive == 1 && t.codes[k].usesRemaining == 1
    ensures var id := t.codes[k].id;
            var first := Use(t, id, u1, ip1, now, notify, true);
            var second := Use(first.tables, id, u2, ip2, now, notify, true);
            && first.ok && first.tables.codes[k].usesRemaining == 0 && first.tables.codes[k].isActive == 0
            && !second.ok && second.tables == first.tables
  {
    var id := t.codes[k].id;
    FindActiveOf(t.codes, k);
    UseOutcome(t, id, u1, ip1, now, notify, true);
    UseEffects(t, id, u1, ip1, now, notify, true);
    var first := Use(t, id, u1, ip1, now, notify, true);
    var codes1 := first.tables.codes;
    assert codes1[k].isActive == 0;
    forall j | 0 <= j < |codes1| && codes1[j].id == id
      ensures j == k
    {
      assert t.codes[j].id == id;
    }
  }

  // ================================================================ update_code

  datatype Column = UsageLimit | UsesRemaining | ExpiryDate | UserRole | IsActive

  /** The allowlist of `update_code`, by column name (`in_array(..., true)`). */
  function ColumnOf(name: string): (r: Option<Column>)
  {
    if name == "usage_limit" then Some(UsageLimit)
    else if name == "uses_remaining" then Some(UsesRemaining)
    else if name == "expiry_date" then Some(ExpiryDate)
    else if name == "user_role" then Some(UserRole)
    else if name == "is_active" then Some(IsActive)
    else None
  }

  function ColumnName(c: Column): string
  {
    match c
    case UsageLimit => "usage_limit"
    case UsesRemaining => "uses_remaining"
    case ExpiryDate => "expiry_date"
    case UserRole => "user_role"
    case IsActive => "is_active"
  }

  lemma ColumnNamesRoundTrip(c: Column, name: string)
    ensures ColumnOf(ColumnName(c)) == Some(c)
    ensures ColumnOf(name) == Some(c) ==> name == ColumnName(c)
  {
  }

  /** A converted column value as `update_code` prepares it. */
  datatype Change = SetNat(n: nat) | SetExpiry(e: Option<nat>) | SetRole(r: string)

  /** The conversion per column: the role is sanitised text, the expiry `$v ? absint($v) : null`,
      every other column `absint($v)`. */
  function Convert(c: Column, v: string, absint: string -> nat): Change
  {
    match c
    case UserRole => SetRole(v)
    case ExpiryDate => SetExpiry(if EmptyString(v) then None else Some(absint(v)))
    case _ => SetNat(absint(v))
  }

  /** The `$update_data` that the loop over `$data` builds: allowed fields only, a later entry
      for the same field replacing an earlier one. */
  function Changes(data: seq<(string, string)>, absint: string -> nat): map<Column, Change>
  {
    if data == [] then map[]
    else
      var last := data[|data| - 1];
      var before := Changes(data[..|data| - 1], absint);
      match ColumnOf(last.0)
      case None => before
      case Some(c) => before[c := Convert(c, last.1, absint)]
  }

  lemma {:induction false} ChangesDomain(data: seq<(string, string)>, absint: string -> nat, c: Column)
    ensures c in Changes(data, absint) <==> exists k :: 0 <= k < |data| && data[k].0 == ColumnName(c)
  {
    if data != [] {
      var init := data[..|data| - 1];
      var last := data[|data| - 1];
      ChangesDomain(init, absint, c);
      ColumnNamesRoundTrip(c, last.0);
      if last.0 != ColumnName(c) {
        if exists k :: 0 <= k < |data| && data[k].0 == ColumnName(c) {
          var k :| 0 <= k < |data| && data[k].0 == ColumnName(c);
          assert init[k] == data[k];
        }
        if exists k :: 0 <= k < |init| && init[k].0 == ColumnName(c) {
          var k :| 0 <= k < |init| && init[k].0 == ColumnName(c);
          assert data[k] == init[k];
        }
      }
    }
  }

  lemma {:induction false} ChangesLast(data: seq<(string, string)>, absint: string -> nat, c: Column, k: nat)
    requires k < |data| && data[k].0 == ColumnName(c)
    requires forall k' :: k < k' < |data| ==> data[k'].0 != ColumnName(c)
    ensures c in Changes(data, absint) && Changes(data, absint)[c] == Convert(c, data[k].1, absint)
  {
    var init := data[..|data| - 1];
    var last := data[|data| - 1];
    ColumnNamesRoundTrip(c, last.0);
    if k < |data| - 1 {
      assert last.0 != ColumnName(c);
      assert init[k] == data[k];
      assert forall k' :: k < k' < |init| ==> init[k'] == data[k'];
      ChangesLast(init, absint, c, k);
    }
  }

  /** A field is written exactly when `$data` names it, with the value of its last entry;
      every unknown field is dropped. */
  lemma ChangesSpec(data: seq<(string, string)>, absint: string -> nat, c: Column)
    ensures c in Changes(data, absint) <==> exists k :: 0 <= k < |data| && data[k].0 == ColumnName(c)
    ensures forall k :: 0 <= k < |data| && data[k].0 == ColumnName(c) &&
                        (forall k' :: k < k' < |data| ==> data[k'].0 != ColumnName(c)) ==>
      c in Changes(data, absint) && Changes(data, absint)[c] == Convert(c, data[k].1, absint)
  {
    ChangesDomain(data, absint, c);
    forall k | 0 <= k < |data| && data[k].0 == ColumnName(c) && (forall k' :: k < k' < |data| ==> data[k'].0 != ColumnName(c))
      ensures c in Changes(data, absint) && Changes(data, absint)[c] == Convert(c, data[k].1, absint)
    {
      ChangesLast(data, absint, c, k);
    }
  }

  /** Nothing to write exactly when no entry names an allowed field. */
  lemma ChangesEmptyIff(data: seq<(string, string)>, absint: string -> nat)
    ensures Changes(data, absint) == map[] <==> forall k :: 0 <= k < |data| ==> ColumnOf(data[k].0).None?
  {
    forall c: Column ensures c in Changes(data, absint) <==> exists k :: 0 <= k < |data| && data[k].0 == ColumnName(c) {
      ChangesDomain(data, absint, c);
    }
    if Changes(data, absint) != map[] {
      var c :| c in Changes(data, absint);
      var k :| 0 <= k < |data| && data[k].0 == ColumnName(c);
      ColumnNamesRoundTrip(c, data[k].0);
    }
    if exists k :: 0 <= k < |data| && ColumnOf(data[k].0).Some? {
      var k :| 0 <= k < |data| && ColumnOf(data[k].0).Some?;
      var c := ColumnOf(data[k].0).value;
      ColumnNamesRoundTrip(c, data[k].0);
      assert c in Changes(data, absint);
    }
  }

  /** The loop of `update_code` over `$data`, building `$update_data`. */
  method CollectChanges(data: seq<(string, string)>, absint: string -> nat) returns (changes: map<Column, Change>)
    ensures changes == Changes(data, absint)
  {
    changes := map[];
    var i := 0;
    while i < |data|
      invariant 0 <= i <= |data|
      invariant changes == Changes(data[..i], absint)
    {
      assert data[..i + 1][..i] == data[..i];
      var (field, value) := data[i];
      var column := ColumnOf(field);
      if column.Some? {
        changes := changes[column.value := Convert(column.value, value, absint)];
      }
      i := i + 1;
    }
    assert data[..i] == data;
  }

  /** One row after `UPDATE ... SET <changes>`. */
  function Apply(c: Code, changes: map<Column, Change>): Code
  {
    c.(usageLimit := NatChange(changes, UsageLimit, c.usageLimit),
       usesRemaining := NatChange(changes, UsesRemaining, c.usesRemaining),
       expiry := if ExpiryDate in changes && changes[ExpiryDate].SetExpiry? then changes[ExpiryDate].e else c.expiry,
       role := if UserRole in changes && changes[UserRole].SetRole? then changes[UserRole].r else c.role,
       isActive := NatChange(changes, IsActive, c.isActive))
  }

  function NatChange(changes: map<Column, Change>, c: Column, current: nat): nat
  {
    if c in changes && changes[c].SetNat? then changes[c].n else current
  }

  /** `update_code` after the allowlist: false without writing when there is nothing to write or
      the store refuses; otherwise true, even when no row has that id. */
  function Update(t: Tables, id: nat, changes: map<Column, Change>, accepted: bool): (r: (Tables, bool))
  {
    if changes == map[] || !accepted then (t, false)
    else (t.(codes := UpdateRows(t.codes, id, c => Apply(c, changes))), true)
  }

  /** An update writes only the five allowed columns of the rows with that id, never the id,
      hash, total uses or creation time, and touches neither the ledger nor other rows. */
  lemma UpdateSpec(t: Tables, id: nat, data: seq<(string, string)>, absint: string -> nat, accepted: bool)
    requires ValidTables(t)
    ensures var changes := Changes(data, absint);
            var (t', ok) := Update(t, id, changes, accepted);
      && ValidTables(t')
      && (ok <==> accepted && exists k :: 0 <= k < |data| && ColumnOf(data[k].0).Some?)
      && (!ok ==> t' == t)
      && t'.usage == t.usage && t'.nextId == t.nextId && |t'.codes| == |t.codes|
      && (forall k :: 0 <= k < |t.codes| ==>
            && t'.codes[k].id == t.codes[k].id && t'.codes[k].hash == t.codes[k].hash
            && t'.codes[k].totalUses == t.codes[k].totalUses && t'.codes[k].createdAt == t.codes[k].createdAt
            && (t.codes[k].id != id ==> t'.codes[k] == t.codes[k]))
  {
    var changes := Changes(data, absint);
    ChangesEmptyIff(data, absint);
    UpdateRowsValid(t, id, c => Apply(c, changes));
  }

  /** A successful update rewrites a row with that id to the row with the collected changes
      applied. */
  lemma UpdateWrites(t: Tables, id: nat, data: seq<(string, string)>, absint: string -> nat, accepted: bool, k: nat)
    requires k < |t.codes| && t.codes[k].id == id
    ensures var changes := Changes(data, absint);
            var (t', ok) := Update(t, id, changes, accepted);
      ok ==> t'.codes[k] == Apply(t.codes[k], changes)
  {
  }

  /** The values written, column by column: when the last `$data` entry naming
      `uses_remaining` holds `v`, an accepted update leaves `absint(v)` there, and when the
      last entry naming `expiry_date` holds `w`, it leaves null for a PHP-empty `w` and
      `absint(w)` otherwise. */
  lemma UpdateNamedColumns(t: Tables, id: nat, data: seq<(string, string)>, absint: string -> nat, k: nat, j: nat, j2: nat)
    requires k < |t.codes| && t.codes[k].id == id
    requires j < |data| && data[j].0 == "uses_remaining"
    requires forall i :: j < i < |data| ==> data[i].0 != "uses_remaining"
    requires j2 < |data| && data[j2].0 == "expiry_date"
    requires forall i :: j2 < i < |data| ==> data[i].0 != "expiry_date"
    ensures var (t', ok) := Update(t, id, Changes(data, absint), true);
      && ok
      && t'.codes[k].usesRemaining == absint(data[j].1)
      && t'.codes[k].expiry == (if EmptyString(data[j2].1) then None else Some(absint(data[j2].1)))
  {
    var changes := Changes(data, absint);
    ChangesLast(data, absint, UsesRemaining, j);
    ChangesLast(data, absint, ExpiryDate, j2);
    assert changes[UsesRemaining] == SetNat(absint(data[j].1));
    assert changes[ExpiryDate] == SetExpiry(if EmptyString(data[j2].1) then None else Some(absint(data[j2].1)));
    UpdateWrites(t, id, data, absint, true, k);
  }

  // ================================================================ delete_code

  /** `delete_code`: removes the code and then every ledger row naming it. */
  function Delete(t: Tables, id: nat, accepted: bool): (r: (Tables, bool))
  {
    if !accepted then (t, false)
    else (t.(codes := Filter(t.codes, (c: Code) => c.id != id),
             usage := Filter(t.usage, (a: Attempt) => a.codeId != Some(id))), true)
  }

  /** A delete keeps the tables consistent: the ledger rows it keeps name only kept codes. */
  lemma {:induction false} DeleteValid(t: Tables, id: nat)
    requires ValidTables(t)
    ensures ValidTables(Delete(t, id, true).0)
  {
    var t' := Delete(t, id, true).0;
    var keepCode := (c: Code) => c.id != id;
    var ordered := (a: Code, b: Code) => a.id < b.id;
    var distinct := (a: Code, b: Code) => a.hash != b.hash;
    FilterPairwise(t.codes, keepCode, ordered);
    FilterPairwise(t.codes, keepCode, distinct);
    FilterSpec(t.codes, keepCode);
    FilterSpec(t.usage, (a: Attempt) => a.codeId != Some(id));
    assert forall j, k :: 0 <= j < k < |t'.codes| ==> ordered(t'.codes[j], t'.codes[k]);
    assert forall j, k :: 0 <= j < k < |t'.codes| ==> distinct(t'.codes[j], t'.codes[k]);
    forall k | 0 <= k < |t'.codes| ensures 1 <= t'.codes[k].id < t'.nextId {
      assert t'.codes[k] in t.codes;
    }
    forall k | 0 <= k < |t'.usage| && t'.usage[k].codeId.Some?
      ensures HasId(t'.codes, t'.usage[k].codeId.value)
    {
      var a := t'.usage[k];
      assert a in t.usage;
      var i :| 0 <= i < |t.usage| && t.usage[i] == a;
      var j :| 0 <= j < |t.codes| && t.codes[j].id == a.codeId.value;
      assert t.codes[j] in t'.codes;
    }
  }

  /** After a delete no row of either table names the id, every other row is kept, and no
      row is added. */
  lemma {:induction false} DeleteSpec(t: Tables, id: nat)
    ensures var (t', ok) := Delete(t, id, true);
      && ok && t'.nextId == t.nextId
      && !HasId(t'.codes, id)
      && (forall c :: c in t'.codes <==> c in t.codes && c.id != id)
      && (forall a :: a in t'.usage <==> a in t.usage && a.codeId != Some(id))
  {
    var t' := Delete(t, id, true).0;
    FilterSpec(t.codes, (c: Code) => c.id != id);
    FilterSpec(t.usage, (a: Attempt) => a.codeId != Some(id));
    forall k | 0 <= k < |t'.codes| ensures t'.codes[k].id != id {
      assert t'.codes[k] in t'.codes;
    }
  }

  /** Deleting an id that names no code changes nothing (and still reports success). */
  lemma DeleteMissingIsNoop(t: Tables, id: nat)
    requires ValidTables(t) && !HasId(t.codes, id)
    ensures Delete(t, id, true) == (t, true)
  {
    FilterKeepsAll(t.codes, (c: Code) => c.id != id);
    forall k | 0 <= k < |t.usage| ensures t.usage[k].codeId != Some(id) {
      assert t.usage[k].codeId.Some? ==> HasId(t.codes, t.usage[k].codeId.value);
    }
    FilterKeepsAll(t.usage, (a: Attempt) => a.codeId != Some(id));
  }

  /** A second delete of the same id, as the deferred cleanup may issue, is harmless. */
  lemma DeleteIdempotent(t: Tables, id: nat)
    requires ValidTables(t)
    ensures Delete(Delete(t, id, true).0, id, true) == Delete(t, id, true)
  {
    DeleteSpec(t, id);
    DeleteValid(t, id);
    DeleteMissingIsNoop(Delete(t, id, true).0, id);
  }

  // ================================================================ get_all_codes

  /** `get_all_codes` without its cache and ordering: active rows only unless asked for all. */
  function ListCodes(codes: seq<Code>, includeInactive: bool): (r: seq<Code>)
    ensures forall c :: c in r <==> c in codes && (includeInactive || c.isActive == 1)
  {
    FilterSpec(codes, (c: Code) => includeInactive || c.isActive == 1);
    Filter(codes, (c: Code) => includeInactive || c.isActive == 1)
  }

  // ================================================================ the registry object

  class Registry {
    /** sha256 as an uninterpreted function, and `absint` of form text. */
    const hash: string -> string
    const absint: string -> nat
    var codes: seq<Code>
    var usage: seq<Attempt>
    var nextId: nat
    /** Deferred deletions and notifications issued so far. */
    ghost var events: seq<Event>

    function State(): Tables
      reads this`codes, this`usage, this`nextId
    {
      Tables(codes, usage, nextId)
    }

    ghost predicate Valid()
      reads this`codes, this`usage, this`nextId
    {
      ValidTables(State())
    }

    constructor (hash: string -> string, absint: string -> nat)
      ensures Valid() && State() == Tables([], [], 1) && events == []
      ensures this.hash == hash && this.absint == absint
    {
      this.hash := hash;
      this.absint := absint;
      codes, usage, nextId := [], [], 1;
      events := [];
    }

    /** `hash_code`. */
    function HashCode(s: string): string
    {
      hash(Normalize(s))
    }

    /** `log_attempt`: appends one row; a falsy id is stored as NULL. */
    method LogAttempt(codeId: nat, ip: string, kind: AttemptType, userId: nat, now: int)
      requires Valid()
      requires codeId != 0 ==> HasId(codes, codeId)
      modifies this`usage
      ensures Valid()
      ensures usage == old(usage) + [Attempt(Nullable(codeId), ip, kind, Nullable(userId), now)]
    {
      AppendValid(State(), Attempt(Nullable(codeId), ip, kind, Nullable(userId), now));
      usage := usage + [Attempt(Nullable(codeId), ip, kind, Nullable(userId), now)];
    }

    method CreateCode(codeString: string, terms: CodeTerms, now: int, accepted: bool) returns (id: Option<nat>)
      requires Valid()
      modifies this
      ensures Valid() && events == old(events)
      ensures (State(), id) == Create(old(State()), HashCode(codeString), terms, now, accepted)
    {
      var h := HashCode(codeString);
      CreateValid(State(), h, terms, now, accepted);
      if HashTaken(codes, h) || !accepted {
        return None;
      }
      codes := codes + [NewCode(nextId, h, terms, now)];
      id := Some(nextId);
      nextId := nextId + 1;
    }

    method BulkGenerateCodes(count: nat, terms: CodeTerms, prefix: string, suffix: nat -> string, now: int, accepted: nat -> bool)
      returns (generated: seq<(nat, string)>)
      requires Valid()
      modifies this
      ensures Valid() && events == old(events)
      ensures (State(), generated) == BulkRun(old(State()), if count < MaxBulk then count else MaxBulk,
                                             terms, prefix, suffix, HashOf(hash), now, accepted)
    {
      var n := if count < MaxBulk then count else MaxBulk;
      ghost var start := State();
      generated := [];
      var i := 0;
      while i < n
        invariant 0 <= i <= n
        invariant Valid() && events == old(events)
        invariant (State(), generated) == BulkRun(start, i, terms, prefix, suffix, HashOf(hash), now, accepted)
      {
        ghost var before := State();
        ghost var g0 := generated;
        var text := BulkText(prefix, suffix, i);
        assert HashOf(hash)(text) == HashCode(text);
        var id := CreateCode(text, terms, now, accepted(i));
        assert (State(), id) == Create(before, HashOf(hash)(text), terms, now, accepted(i));
        ghost var head: seq<(nat, string)> := if id.Some? then [(id.value, text)] else [];
        assert BulkRun(start, i + 1, terms, prefix, suffix, HashOf(hash), now, accepted) == (State(), g0 + head);
        if id.Some? {
          generated := generated + [(id.value, text)];
        }
        assert generated == g0 + head;
        i := i + 1;
      }
    }

    /** `check_rate_limit`, reading the ledger. */
    function CheckRateLimit(ip: string, now: int, cfg: RateLimitSettings): bool
      reads this
    {
      IsRateLimited(usage, ip, now, cfg)
    }

    method ValidateCode(codeString: string, ip: string, now: int, cfg: RateLimitSettings) returns (r: Outcome)
      requires Valid()
      modifies this`usage
      ensures Valid()
      ensures r == Validate(old(State()), hash, codeString, ip, now, cfg).0
      ensures usage == old(usage) + Validate(old(State()), hash, codeString, ip, now, cfg).1
    {
      if EmptyString(codeString) {
        return Rejected(EmptyCode);
      }
      if CheckRateLimit(ip, now, cfg) {
        return Rejected(RateLimited);
      }
      var found := FindByHash(codes, HashCode(codeString));
      if found.None? {
        LogAttempt(0, ip, Invalid, 0, now);
        return Rejected(InvalidCode);
      }
      var code := found.value;
      if code.usesRemaining <= 0 {
        assert code.id >= 1 && HasId(codes, code.id);
        LogAttempt(code.id, ip, Exhausted, 0, now);
        return Rejected(CodeExhausted);
      }
      if code.expiry.Some? && code.expiry.value != 0 && now > code.expiry.value {
        assert code.id >= 1 && HasId(codes, code.id);
        LogAttempt(code.id, ip, Expired, 0, now);
        return Rejected(CodeExpired);
      }
      return Accepted(code);
    }

    /** The `UPDATE` of `use_code`: every row with the code's id becomes `after`. */
    method StoreRow(code: Code, after: Code)
      requires Valid()
      requires code in codes && after.id == code.id && after.hash == code.hash
      modifies this`codes
      ensures Valid() && HasId(codes, code.id)
      ensures codes == UpdateRows(old(codes), code.id, _ => after)
    {
      UpdateRowsValid(State(), code.id, _ => after);
      var j :| 0 <= j < |codes| && codes[j] == code;
      codes := UpdateRows(codes, code.id, _ => after);
      assert codes[j].id == code.id;
    }

    /** The success branch of `use_code`, once the row is known active with uses left and the
        store has accepted the update: consume one use, log the success, and on the last use
        schedule the deletion and send the notice. */
    method Redeem(code: Code, userId: nat, ip: string, now: int, notify: NotifySettings)
      requires Valid()
      requires code in codes && code.usesRemaining > 0
      modifies this
      ensures Valid()
      ensures codes == UpdateRows(old(codes), code.id, _ => Consumed(code))
      ensures usage == old(usage) + [Attempt(Nullable(code.id), ip, Success, Nullable(userId), now)]
      ensures nextId == old(nextId)
      ensures events == old(events) + ExhaustionEvents(Consumed(code), now, notify)
    {
      var newRemaining := code.usesRemaining - 1;
      var newTotal := code.totalUses + 1;
      var after := code.(usesRemaining := newRemaining, totalUses := newTotal, isActive := if newRemaining > 0 then 1 else 0);
      assert after == Consumed(code);
      StoreRow(code, Consumed(code));
      LogAttempt(code.id, ip, Success, userId, now);
      events := events + ExhaustionEvents(after, now, notify);
    }

    method UseCode(codeId: nat, userId: nat, ip: string, now: int, notify: NotifySettings, accepted: bool) returns (ok: bool)
      requires Valid()
      modifies this
      ensures Valid()
      ensures var r := Use(old(State()), codeId, userId, ip, now, notify, accepted);
              State() == r.tables && ok == r.ok && events == old(events) + r.events
    {
      var found := FindActive(codes, codeId);
      if found.None? || found.value.usesRemaining <= 0 || !accepted {
        return false;
      }
      Redeem(found.value, userId, ip, now, notify);
      ok := true;
    }

    method UpdateCode(codeId: nat, data: seq<(string, string)>, accepted: bool) returns (ok: bool)
      requires Valid()
      modifies this
      ensures Valid() && events == old(events)
      ensures (State(), ok) == Update(old(State()), codeId, Changes(data, absint), accepted)
    {
      UpdateSpec(State(), codeId, data, absint, accepted);
      var changes := CollectChanges(data, absint);
      if changes == map[] {
        return false;
      }
      if !accepted {
        return false;
      }
      codes := UpdateRows(codes, codeId, c => Apply(c, changes));
      ok := true;
    }

    method DeleteCode(codeId: nat, accepted: bool) returns (ok: bool)
      requires Valid()
      modifies this
      ensures Valid() && events == old(events)
      ensures (State(), ok) == Delete(old(State()), codeId, accepted)
    {
      if !accepted {
        return false;
      }
      DeleteValid(State(), codeId);
      codes := Filter(codes, (c: Code) => c.id != codeId);
      usage := Filter(usage, (a: Attempt) => a.codeId != Some(codeId));
      ok := true;
    }

    function GetAllCodes(includeInactive: bool): (r: seq<Code>)
      reads this
      ensures forall c :: c in r <==> c in codes && (includeInactive || c.isActive == 1)
    {
      ListCodes(codes, includeInactive)
    }
  }
}
