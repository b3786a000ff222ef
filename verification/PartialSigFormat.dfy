/** What an exported transaction looks like, which texts are imported, who is missing, and what is reported. */
module PartialSigFormat {
  import opened Wrappers
  import opened Seqs
  import opened Terms
  import opened UniversalSign
  import opened PartialSig
  import Base64Url

  // ---------- The envelope ----------

  /** The text is an envelope of the one format and version, for that command and hash and with those entries. */
  ghost predicate IsEnvelope(text: Term, cmd: Term, hash: Term, entries: seq<Json>) {
    && text.Text? && text.json.Obj?
    && Field(text.json, "format") == Some(Str(Lit("ouronet-partial-sig")))
    && Field(text.json, "version") == Some(Num(1))
    && exists tx: map<string, Json> :: IsTransaction(tx, cmd, hash, entries)
         && Field(text.json, "transaction") == Some(Obj(tx))
  }

  predicate IsTransaction(tx: map<string, Json>, cmd: Term, hash: Term, entries: seq<Json>) {
    && Field(Obj(tx), "cmd") == Some(Str(cmd)) && Field(Obj(tx), "hash") == Some(Str(hash))
    && Field(Obj(tx), "sigs") == Some(Arr(entries))
  }

  /** The signature an entry carries: the text in its `sig` field, unless that is empty. */
  function Carried(entry: Json): Option<Term> {
    match Field(entry, "sig")
    case Some(Str(t)) => if t == Lit("") then None else Some(t)
    case _ => None
  }

  /** An export is such an envelope, and its entries carry what the slots hold. */
  lemma ExportIsEnvelope(tx: Tx, metadata: Option<Json>)
    ensures IsEnvelope(SerializePartialTransaction(tx, metadata), tx.cmd, tx.hash, SlotsJson(tx.sigs))
    ensures |SlotsJson(tx.sigs)| == |tx.sigs|
    ensures forall i :: 0 <= i < |tx.sigs| ==> Carried(SlotsJson(tx.sigs)[i]) == SigIn(tx.sigs[i])
    ensures Field(SerializePartialTransaction(tx, metadata).json, "metadata") == metadata
  {
    var json := SerializePartialTransaction(tx, metadata).json;
    var fields := TransactionJson(tx).fields;
    assert Field(json, "transaction") == Some(Obj(fields));
    assert IsTransaction(fields, tx.cmd, tx.hash, SlotsJson(tx.sigs));
    EntriesCarry(tx.sigs);
  }

  lemma {:induction false} EntriesCarry(sigs: seq<Slot>)
    ensures |SlotsJson(sigs)| == |sigs|
    ensures forall i :: 0 <= i < |sigs| ==> Carried(SlotsJson(sigs)[i]) == SigIn(sigs[i])
  {
    if sigs != [] {
      EntriesCarry(sigs[1..]);
      assert Carried(SlotJson(sigs[0])) == SigIn(sigs[0]);
    }
  }

  lemma {:induction false} SlotsCarried(entries: seq<Json>)
    ensures |SlotsOf(entries)| == |entries|
    ensures forall i :: 0 <= i < |entries| ==> SigIn(SlotsOf(entries)[i]) == Carried(entries[i])
  {
    if entries != [] {
      SlotsCarried(entries[1..]);
    }
  }

  /** An envelope is imported with its command, its hash and the signatures it carries exactly when the hash is that
      of the command; otherwise both hashes are named. */
  lemma EnvelopeImported(text: Term, cmd: Term, hash: Term, entries: seq<Json>)
    requires IsEnvelope(text, cmd, hash, entries)
    ensures var r := DeserializePartialTransaction(text);
      if hash == Digest(cmd) then
        && r.Ok? && r.value.cmd == cmd && r.value.hash == hash && |r.value.sigs| == |entries|
        && forall i :: 0 <= i < |entries| ==> SigIn(r.value.sigs[i]) == Carried(entries[i])
      else r == Err(TamperedHash(hash, Digest(cmd)))
  {
    SlotsCarried(entries);
  }

  /** Nothing but an envelope gets as far as having its hash compared. */
  lemma OnlyEnvelopes(text: Term)
    ensures var r := DeserializePartialTransaction(text);
      r.Ok? || r.error.TamperedHash? <==> exists cmd, hash, entries :: IsEnvelope(text, cmd, hash, entries)
  {
    var r := DeserializePartialTransaction(text);
    if r.Ok? || r.error.TamperedHash? {
      var tx := Field(text.json, "transaction").value.fields;
      var cmd, hash, entries := tx["cmd"].t, tx["hash"].t, tx["sigs"].items;
      assert IsTransaction(tx, cmd, hash, entries);
      assert IsEnvelope(text, cmd, hash, entries);
    }
    if cmd, hash, entries :| IsEnvelope(text, cmd, hash, entries) {
      EnvelopeImported(text, cmd, hash, entries);
    }
  }

  /** A refusal names a part that is at fault. */
  lemma RefusalNamesFault(text: Term)
    requires DeserializePartialTransaction(text).Err?
    ensures var e := DeserializePartialTransaction(text).error;
      && (e.NotJsonText? <==> !text.Text?)
      && (e.NotAnObject? <==> text.Text? && !text.json.Obj?)
      && (e.BadFormat? ==> Field(text.json, "format") != Some(Str(Lit("ouronet-partial-sig"))))
      && (e.BadVersion? ==> Field(text.json, "version") != Some(Num(1)))
      && (e.BadTransaction? ==>
           forall fields: map<string, Json> :: Field(text.json, "transaction") != Some(Obj(fields)))
    ensures var e := DeserializePartialTransaction(text).error;
      e.BadCmd? || e.BadHash? || e.BadSigs? ==>
        exists tx: map<string, Json> :: Field(text.json, "transaction") == Some(Obj(tx)) && FaultIn(e, tx)
  {
    var e := DeserializePartialTransaction(text).error;
    if e.BadCmd? || e.BadHash? || e.BadSigs? {
      assert FaultIn(e, Field(text.json, "transaction").value.fields);
    }
  }

  /** The field is not a text, or for the entries not an array. */
  predicate FaultIn(e: ImportError, tx: map<string, Json>) {
    match e
    case BadCmd => "cmd" in tx ==> !tx["cmd"].Str?
    case BadHash => "hash" in tx ==> !tx["hash"].Str?
    case BadSigs => "sigs" in tx ==> !tx["sigs"].Arr?
    case _ => false
  }

  // ---------- Who has signed ----------

  /** The indices of the declared signers, in order, that have signed, or have not. */
  lemma {:induction false} SignersInOrder(pubs: seq<Term>, tx: Tx, filled: bool, i: nat) returns (at: seq<nat>)
    requires i <= |pubs|
    ensures |at| == |SignersWhere(pubs, tx, filled, i)|
    ensures forall a, b :: 0 <= a < b < |at| ==> at[a] < at[b]
    ensures forall a :: 0 <= a < |at| ==> i <= at[a] < |pubs| && SignersWhere(pubs, tx, filled, i)[a] == pubs[at[a]]
    ensures forall k: nat :: k in at <==>
      i <= k < |pubs| && filled == (k < |tx.sigs| && SigIn(tx.sigs[k]).Some?)
    decreases |pubs| - i
  {
    at := [];
    if i < |pubs| {
      var rest := SignersInOrder(pubs, tx, filled, i + 1);
      WhereStep(pubs, tx, filled, i);
      at := if SlotFilled(tx, i) == filled then [i] + rest else rest;
    }
  }

  /** The missing signers are, in their declared order, those whose slot has no signature. */
  lemma MissingInOrder(tx: Tx) returns (at: seq<nat>)
    requires Covered(tx.cmd)
    ensures |at| == |GetMissingSigners(tx)| && forall a, b :: 0 <= a < b < |at| ==> at[a] < at[b]
    ensures forall a :: 0 <= a < |at| ==>
      at[a] < |Signers(tx.cmd)| && GetMissingSigners(tx)[a] == Signers(tx.cmd)[at[a]]
    ensures forall k: nat :: k in at <==>
      k < |Signers(tx.cmd)| && (k < |tx.sigs| ==> tx.sigs[k].Vacant? || tx.sigs[k].sig in {None, Some(Lit(""))})
  {
    ReadersAgree(tx.cmd);
    at := SignersInOrder(Signers(tx.cmd), tx, false, 0);
  }

  /** A text that is no JSON, or has no signers, declares nobody, and so counts as fully signed. */
  lemma NobodyDeclared(tx: Tx)
    requires !tx.cmd.Text? || Field(tx.cmd.json, "signers").None? || !Field(tx.cmd.json, "signers").value.Arr?
    ensures GetMissingSigners(tx) == [] && GetFilledSigners(tx) == [] && IsFullySigned(tx)
  {
  }

  /** An empty text in a slot is no signature: its signer is missing, and fills it by signing. */
  lemma EmptyIsMissing(tx: Tx, kps: seq<Keypair>, i: nat)
    requires Covered(tx.cmd) && i < |Signers(tx.cmd)| == |tx.sigs|
    requires tx.sigs[i] == Slot(Some(Signers(tx.cmd)[i]), Some(Lit("")))
    ensures Signers(tx.cmd)[i] in GetMissingSigners(tx) && !IsFullySigned(tx)
    ensures Tidy(tx) && AllHonest(kps) && Signers(tx.cmd)[i] in KeysOf(kps) ==>
      && SignPartial(tx, kps).Ok? && |SignPartial(tx, kps).value.sigs| == |tx.sigs|
      && SigIn(SignPartial(tx, kps).value.sigs[i]) == Some(ValidSig(Signers(tx.cmd)[i], tx.hash))
  {
    var at := MissingInOrder(tx);
    assert i in at;
    var a :| 0 <= a < |at| && at[a] == i;
    assert GetMissingSigners(tx)[a] in GetMissingSigners(tx);
    if Tidy(tx) && AllHonest(kps) && Signers(tx.cmd)[i] in KeysOf(kps) {
      OnePass(tx, kps);
    }
  }

  // ---------- The report ----------

  /** What a slot is reported for: a signature at an index that no signer is declared at, a text that is not of 128
      hexadecimal digits, a key that is not of 32 bytes, or a signature of something else. */
  lemma ReasonsExactly(tx: Tx, pubs: seq<Term>, i: nat, sig: Term)
    requires i < |tx.sigs| && tx.sigs[i].Slot? && tx.sigs[i].sig == Some(sig) && sig != Lit("")
    ensures var r := SlotProblem(tx, pubs, i);
      if i >= |pubs| || pubs[i] == Lit("") then r == Some(Report(Lit(""), NotDeclared(i)))
      else if sig.Lit? && !(|sig.text| == 128 && forall c <- sig.text :: c in "0123456789abcdefABCDEF")
        then r == Some(Report(pubs[i], NotHex))
      else sig.Sig? && pubs[i].Pub? ==>
        r == if sig == Sig(pubs[i].seed, pubs[i], tx.hash) then None else Some(Report(pubs[i], BadSignature))
  {
    HexDigits();
  }

  lemma HexDigits()
    ensures forall c: char :: HexDigit(c) <==> c in "0123456789abcdefABCDEF"
  {
    forall c: char ensures HexDigit(c) <==> c in "0123456789abcdefABCDEF" {
      if HexDigit(c) {
        var hex := "0123456789abcdefABCDEF";
        var k: nat := if c <= '9' then c as int - '0' as int
                      else if c <= 'F' then c as int - 'A' as int + 16
                      else c as int - 'a' as int + 10;
        assert hex[k] == c;
      }
    }
  }

  lemma {:induction false} BytesRead(text: string, n: nat)
    ensures HexBytes(text) >= n <==> |text| >= 2 * n && forall k :: 0 <= k < 2 * n ==> HexDigit(text[k])
  {
    if n > 0 && |text| >= 2 {
      BytesRead(text[2..], n - 1);
      assert forall k :: 2 <= k < |text| ==> text[k] == text[2..][k - 2];
    }
  }

  /** A declared key that is given as text can be verified against when its first 64 characters are hexadecimal
      digits, and no 65th and 66th are. */
  lemma KeyRefusedIff(tx: Tx, pubs: seq<Term>, i: nat)
    requires i < |tx.sigs| && Filled(tx.sigs[i]) && HexSignature(tx.sigs[i].sig.value)
    requires i < |pubs| && pubs[i].Lit? && pubs[i] != Lit("")
    ensures var text := pubs[i].text;
      SlotProblem(tx, pubs, i) ==
        if |text| >= 64 && (forall k :: 0 <= k < 64 ==> HexDigit(text[k]))
           && !(|text| >= 66 && HexDigit(text[64]) && HexDigit(text[65]))
        then Some(Report(pubs[i], BadSignature))
        else Some(Report(pubs[i], KeyRefused))
  {
    BytesRead(pubs[i].text, 32);
    BytesRead(pubs[i].text, 33);
  }

  /** The hash of a transaction that is given as text is refused exactly for its length, its padding left away. */
  lemma HashRefusedIff(text: string)
    ensures HashDecodes(Lit(text)) <==> |Base64Url.WithoutPadding(text)| % 4 != 1
  {
  }
}
