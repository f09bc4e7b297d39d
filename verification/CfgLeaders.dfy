/**
 Why a block starts where it does: every leader has a reason in the runs of
 the method, every reason makes a leader, and two instructions share a block
 exactly when there is no reason between them.
 */
module CfgLeaders {
  import opened Basics
  import opened CodeModel
  import opened Cfg
  import opened CfgWalk

  /** Some handler of the method starts at `a`. */
  ghost predicate NamedByHandler(code: CodeItem, a: nat) {
    exists n, kind :: 0 <= n < |code.catchHandlers| && InHandler(code.catchHandlers[n], kind, a)
  }

  /** Instruction `i` can continue at `a` other than by falling through or throwing. */
  ghost predicate Jumps(code: CodeItem, i: nat, kind: EdgeKind, a: nat)
    requires ValidCode(code)
  {
    && i < |code.instructions| && kind != FallThrough && !kind.IsException()
    && Continues(code, code.instructions[i], kind, a)
  }

  ghost predicate JumpedTo(code: CodeItem, a: nat)
    requires ValidCode(code)
  {
    exists i, kind :: Jumps(code, i, kind, a)
  }

  /** A branch or an instruction that leaves the method ends at `a`. */
  predicate AfterTransfer(code: CodeItem, a: nat) {
    exists i :: 0 <= i < |code.instructions| && !IsPlain(code.instructions[i].op) && code.instructions[i].End() == a
  }

  ghost predicate HasReason(code: CodeItem, a: nat)
    requires ValidCode(code)
  {
    a == 0 || NamedByHandler(code, a) || JumpedTo(code, a) || AfterTransfer(code, a)
  }

  lemma HandlerReason(code: CodeItem, a: nat)
    ensures NamedByHandler(code, a) <==> a in HandlerLeadersUpTo(code, |code.catchHandlers|)
  {
    if a in HandlerLeadersUpTo(code, |code.catchHandlers|) {
      var n :| 0 <= n < |code.catchHandlers| && a in HandlerLeaders(code.catchHandlers[n]);
      var h := code.catchHandlers[n];
      if c :| c in h.catches && c.handlerAddr == a {
        assert TypedCatch(c.exceptionType, a) == c;
        assert InHandler(h, ExceptionHandler(c.exceptionType), a);
      } else {
        assert InHandler(h, ExceptionCatchAll, a);
      }
    }
    if n, kind :| 0 <= n < |code.catchHandlers| && InHandler(code.catchHandlers[n], kind, a) {
      var h := code.catchHandlers[n];
      if kind.ExceptionHandler? {
        assert TypedCatch(kind.exceptionType, a) in h.catches;
      }
      assert a in HandlerLeaders(h);
    }
  }

  /** What one instruction contributes: its own end if it is not plain, and where it jumps. */
  lemma InsnReason(code: CodeItem, i: nat, a: nat)
    requires ValidCode(code) && TablesPaired(code.payloads) && i < |code.instructions|
    ensures a in InsnLeaders(code, code.instructions[i]) <==>
            || (!IsPlain(code.instructions[i].op) && code.instructions[i].End() == a)
            || exists kind :: Jumps(code, i, kind, a)
  {
    var x := code.instructions[i];
    if a in InsnLeaders(code, x) && a != x.End() {
      if IsSwitch(x.op) {
        CaseReason(code, x, a);
        var key :| CaseTo(code, x, key, a);
        assert Jumps(code, i, SwitchCase(key), a);
      } else {
        assert Jumps(code, i, Branch, a);
      }
    }
    if kind :| Jumps(code, i, kind, a) {
      if kind.SwitchCase? {
        assert a in SwitchTargets(code, x);
      }
    }
  }

  lemma CaseReason(code: CodeItem, x: Instruction, a: nat)
    requires TablesPaired(code.payloads) && a in SwitchTargets(code, x)
    ensures exists key :: CaseTo(code, x, key, a)
  {
    var keys, targets := TableKeys(code, x), SwitchTargets(code, x);
    assert |keys| == |targets|;
    var t :| 0 <= t < |targets| && targets[t] == a;
    assert CaseTo(code, x, keys[t], a);
  }

  /** The leaders are exactly the addresses with a reason. */
  lemma LeadersHaveReasons(code: CodeItem, a: nat)
    requires ValidCode(code) && TablesPaired(code.payloads)
    ensures a in Leaders(code) <==> HasReason(code, a)
  {
    hide InsnLeaders, HandlerLeadersUpTo, Jumps, Laid, TablesPaired, NamedByHandler;
    HandlerReason(code, a);
    if a in InsnLeadersUpTo(code, |code.instructions|) {
      var i :| 0 <= i < |code.instructions| && a in InsnLeaders(code, code.instructions[i]);
      InsnReason(code, i, a);
    }
    if i, kind :| Jumps(code, i, kind, a) {
      JumpFrom(code, i, kind, a);
      InsnReason(code, i, a);
      assert a in InsnLeadersUpTo(code, |code.instructions|);
    }
    if i :| 0 <= i < |code.instructions| && !IsPlain(code.instructions[i].op) && code.instructions[i].End() == a {
      InsnReason(code, i, a);
      assert a in InsnLeadersUpTo(code, |code.instructions|);
    }
  }

  lemma JumpFrom(code: CodeItem, i: nat, kind: EdgeKind, a: nat)
    requires ValidCode(code) && Jumps(code, i, kind, a)
    ensures i < |code.instructions|
  {
  }

  /** Nothing starts a block in (lo, hi]. */
  ghost predicate NoReasonIn(code: CodeItem, lo: nat, hi: nat)
    requires ValidCode(code)
  {
    forall a :: lo < a <= hi ==> !HasReason(code, a)
  }

  /** Two instructions are in one block if and only if no address after the first, up to the second, has a reason. */
  lemma SameBlockExactly(code: CodeItem, cfg: Cfg, i: nat, j: nat)
    requires ValidCode(code) && TablesPaired(code.payloads) && IsCfgOf(code, cfg) && i <= j < |code.instructions|
    ensures |cfg.blocks| > 0
    ensures HomeOf(code, cfg, i) == HomeOf(code, cfg, j) <==>
            NoReasonIn(code, code.instructions[i].addr, code.instructions[j].addr)
  {
    hide Leaders, Wired, Region, HasReason, TablesPaired, Home;
    var leaders := Starts(cfg.blocks);
    var p, q := code.instructions[i].addr, code.instructions[j].addr;
    HomeIsHome(leaders, p);
    HomeIsHome(leaders, q);
    var b := HomeOf(code, cfg, i);
    if b == HomeOf(code, cfg, j) {
      forall a | p < a <= q ensures !HasReason(code, a) {
        LeadersHaveReasons(code, a);
        if a in Leaders(code) {
          assert a in Elems(leaders);
          var c :| 0 <= c < |leaders| && leaders[c] == a;
        }
      }
    }
    if NoReasonIn(code, p, q) && HomeOf(code, cfg, i) != HomeOf(code, cfg, j) {
      var a := leaders[HomeOf(code, cfg, j)];
      assert a in Elems(leaders);
      LeadersHaveReasons(code, a);
    }
  }

  /** Something other than running on brings control to `a`. */
  ghost predicate Entered(code: CodeItem, a: nat)
    requires ValidCode(code)
  {
    NamedByHandler(code, a) || JumpedTo(code, a)
  }

  /** A plain instruction and the one right after it share a block if and only if control does not enter in between. */
  lemma PlainRunsOn(code: CodeItem, cfg: Cfg, i: nat)
    requires ValidCode(code) && TablesPaired(code.payloads) && IsCfgOf(code, cfg) && i + 1 < |code.instructions|
    requires IsPlain(code.instructions[i].op) && code.instructions[i + 1].addr == code.instructions[i].End()
    ensures |cfg.blocks| > 0
    ensures HomeOf(code, cfg, i) == HomeOf(code, cfg, i + 1) <==>
            forall a :: code.instructions[i].addr < a <= code.instructions[i].End() ==> !Entered(code, a)
  {
    hide Wired, Region, NamedByHandler, JumpedTo, Leaders, HomeOf;
    SameBlockExactly(code, cfg, i, i + 1);
    var x := code.instructions[i];
    forall a | x.addr < a <= x.End() ensures HasReason(code, a) <==> Entered(code, a) {
    }
  }
}
