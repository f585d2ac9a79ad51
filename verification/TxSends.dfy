/** That a send ends. A send that fills its batch stays in the submission loop until the tx ring has room
    for it; the ring empties as long as the kernel takes from it again and again. */
module TxSends {
  import opened Frames
  import opened TxProtocol
  import opened TxDrains

  /** The kernel tries to take again and again; what else it does is open. */
  ghost predicate Taking(f: nat -> Turn) {
    forall n: nat :: TriedFrom(f, Take, n)
  }

  lemma TirelessTakes()
    ensures Taking(Tireless)
  {
    TirelessIsLively();
  }

  /** Where the submission loop is after n turns. */
  function Attempted(s: TxState, f: nat -> Turn, n: nat): (r: Outcome)
    requires WellFormed(s) && Contiguous(s)
    ensures r.Ok? || r.Spinning?
    ensures WellFormed(r.s)
  {
    Submit(s, Prefix(f, n))
  }

  /** From a loop that has been tried to the turn m that takes: by then the batch is on the ring or less
      is in front of it. */
  lemma {:induction false} TakenBy(s: TxState, f: nat -> Turn, n: nat, m: nat) returns (k: nat)
    requires WellFormed(s) && Contiguous(s) && s.batched <= s.cfg.txRingSize
    requires 0 < n <= m && Take in f(m) && Attempted(s, f, n).Spinning?
    ensures n < k && (Attempted(s, f, k).Spinning? ==> Load(Attempted(s, f, k).s) < Load(Attempted(s, f, n).s))
    decreases m - n
  {
    hide Run;
    hide Submit;
    var r := Attempted(s, f, n).s;
    SubmitOneMore(s, Prefix(f, n), f(n));
    SubmitStuck(s, Prefix(f, n));
    TurnLightens(r, f(n));
    ProductiveTurnLightens(r, f(n));
    k := n + 1;
    if n < m && Attempted(s, f, n + 1).Spinning? {
      k := TakenBy(s, f, n + 1, m);
    }
  }

  lemma {:induction false} SubmitsFrom(s: TxState, f: nat -> Turn, n: nat) returns (k: nat)
    requires WellFormed(s) && Contiguous(s) && s.batched <= s.cfg.txRingSize && Taking(f) && 0 < n
    ensures Attempted(s, f, k).Ok?
    decreases Load(Attempted(s, f, n).s), Attempted(s, f, n).Spinning?
  {
    hide Submit;
    k := n;
    if Attempted(s, f, n).Spinning? {
      assert TriedFrom(f, Take, n);
      var m: nat :| n <= m && Take in f(m);
      k := TakenBy(s, f, n, m);
      if Attempted(s, f, k).Spinning? {
        k := SubmitsFrom(s, f, k);
      }
    }
  }

  /** The submission loop ends under every kernel that takes again and again, exactly when the batch fits
      on the tx ring. */
  lemma SubmitTerminates(s: TxState, f: nat -> Turn)
    requires WellFormed(s) && Contiguous(s) && Taking(f)
    ensures (exists n: nat :: Attempted(s, f, n).Ok?) <==> s.batched <= s.cfg.txRingSize
  {
    if s.batched <= s.cfg.txRingSize {
      var n := SubmitsFrom(s, f, 1);
      assert Attempted(s, f, n).Ok?;
    } else {
      forall n: nat ensures !Attempted(s, f, n).Ok? {
        NeverRoom(s, Prefix(f, n));
      }
    }
  }

  ghost predicate SendSpins(s: TxState, p: Payload, checked: bool, f: nat -> Turn, n: nat)
    requires WellFormed(s)
  {
    Send(s, p, checked, Prefix(f, n)).Spinning?
  }

  ghost predicate SendEnds(s: TxState, p: Payload, checked: bool, f: nat -> Turn)
    requires WellFormed(s)
  {
    exists n: nat :: !SendSpins(s, p, checked, f, n)
  }

  /** The payload is accepted and completes, without straddling the end, a batch longer than the ring. */
  ghost predicate FillsOversized(s: TxState, p: Payload, checked: bool)
    requires WellFormed(s)
  {
    && Harvest(s).status[s.cursor] == Free && (checked ==> |p| <= s.cfg.mtu)
    && s.batched + 1 == s.cfg.batchSize > s.cfg.txRingSize && Contiguous(Store(s, p))
  }

  /** Under every kernel that takes again and again a send terminates, by returning, refusing or
      panicking, unless it completes a batch that the tx ring cannot hold. */
  lemma SendTerminates(s: TxState, p: Payload, checked: bool, f: nat -> Turn)
    requires WellFormed(s) && Taking(f)
    ensures SendEnds(s, p, checked, f) <==> !FillsOversized(s, p, checked)
  {
    hide Submit;
    hide Taking;
    var st := Store(Harvest(s), p);
    if st.batched == s.cfg.batchSize && Contiguous(st) {
      SubmitTerminates(Mark(st), f);
      if s.cfg.batchSize <= s.cfg.txRingSize {
        var n: nat :| Attempted(Mark(st), f, n).Ok?;
        assert !SendSpins(s, p, checked, f, n);
      } else if !FillsOversized(s, p, checked) {
        assert !SendSpins(s, p, checked, f, 0);
      } else {
        forall n: nat ensures SendSpins(s, p, checked, f, n) {
          assert !Attempted(Mark(st), f, n).Ok?;
        }
      }
    } else {
      assert !SendSpins(s, p, checked, f, 0);
    }
  }

  /** Whatever has been done so far, a send ends under every such kernel. */
  ghost predicate SendsEnd(s: TxState)
    requires WellFormed(s)
  {
    forall es: seq<Event>, p: Payload, checked: bool, f: nat -> Turn | RunAll(s, es).Ok? && Taking(f) ::
      SendEnds(RunAll(s, es).s, p, checked, f)
  }

  /** In every run from the start every send ends under every kernel that takes again and again, exactly
      when the batch size is at most the tx ring or more than there are tx frames (when a full batch
      panics instead). */
  lemma SendAlwaysEnds(cfg: TxConfig, content: seq<Payload>)
    requires 0 < cfg.frames == |content|
    ensures SendsEnd(Init(cfg, content)) <==> cfg.batchSize <= cfg.txRingSize || cfg.frames < cfg.batchSize
  {
    hide Taking;
    hide RunAll;
    hide SendEnds;
    var s := Init(cfg, content);
    if cfg.batchSize <= cfg.txRingSize || cfg.frames < cfg.batchSize {
      forall es: seq<Event>, p: Payload, checked: bool, f: nat -> Turn | RunAll(s, es).Ok? && Taking(f)
        ensures SendEnds(RunAll(s, es).s, p, checked, f)
      {
        SendTerminates(RunAll(s, es).s, p, checked, f);
      }
    } else {
      var es := Sends(cfg.batchSize - 1);
      SendsWrite(s, cfg.batchSize - 1);
      var r := RunAll(s, es).s;
      assert Harvest(r) == r && FillsOversized(r, [], false);
      TirelessTakes();
      SendTerminates(r, [], false, Tireless);
      assert !SendsEnd(s);
    }
  }
}
