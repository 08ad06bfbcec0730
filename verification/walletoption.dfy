/** The wallet's conflict options and the flag word the scripts read. */
module WalletOption {
  import opened Wrappers

  /** Options: three switches, all off by default. */
  datatype Options = Options(allowNegative: bool, overflowIfExists: bool, accumulationIfExists: bool)

  /** The three option constructors. */
  datatype Opt = AllowNegative | OverflowIfExists | AccumulationIfExists

  function Set(o: Options, opt: Opt): Options {
    match opt
    case AllowNegative => o.(allowNegative := true)
    case OverflowIfExists => o.(overflowIfExists := true)
    case AccumulationIfExists => o.(accumulationIfExists := true)
  }

  /** optionNew: the defaults with each option applied in order. */
  function OptionNew(opts: seq<Opt>): (o: Options)
    ensures o.allowNegative <==> AllowNegative in opts
    ensures o.overflowIfExists <==> OverflowIfExists in opts
    ensures o.accumulationIfExists <==> AccumulationIfExists in opts
    decreases |opts|
  {
    if |opts| == 0 then Options(false, false, false)
    else
      var p := opts[..|opts| - 1];
      assert opts == p + [opts[|opts| - 1]];
      Set(OptionNew(p), opts[|opts| - 1])
  }

  /** ConflictFlag: asking for both overflow and accumulation is a
      conflict; accumulation is bit 0 (1), overflow is 2, neither is 0. */
  function ConflictFlag(o: Options): (r: Result<nat>)
    ensures r.Err? <==> o.overflowIfExists && o.accumulationIfExists
    ensures r.Err? ==> r.code == Conflict
    ensures r.Ok? ==> (r.value == 1 <==> o.accumulationIfExists)
    ensures r.Ok? ==> (r.value == 2 <==> o.overflowIfExists)
    ensures r.Ok? ==> (r.value == 0 <==> !o.overflowIfExists && !o.accumulationIfExists)
  {
    if o.overflowIfExists && o.accumulationIfExists then Err(Conflict)
    else if o.accumulationIfExists then Ok(1)
    else if o.overflowIfExists then Ok(2)
    else Ok(0)
  }

  /** Bit `b` of a non-negative flag word, as the scripts' bit.band tests it. */
  function Bit(flag: nat, b: nat): bool {
    (flag / Pow2(b)) % 2 == 1
  }

  function Pow2(b: nat): (p: nat)
    ensures p >= 1
  {
    if b == 0 then 1 else 2 * Pow2(b - 1)
  }

  /** allowNegative never reaches the flag word, so the scripts' "allow a
      negative balance" bit (4) is never set by these options. */
  lemma AllowNegativeUnreachable(opts: seq<Opt>)
    ensures ConflictFlag(OptionNew(opts)).Ok? ==> !Bit(ConflictFlag(OptionNew(opts)).value, 2)
    ensures ConflictFlag(OptionNew(opts)) == ConflictFlag(OptionNew(opts).(allowNegative := false))
  {
  }

  /** Only which options appear matters: the order and repetitions of the
      option list do not. */
  lemma OptionsAsSet(a: seq<Opt>, b: seq<Opt>)
    requires forall x :: x in a <==> x in b
    ensures OptionNew(a) == OptionNew(b)
  {
  }

  /** Repeating an option changes nothing. */
  lemma RepeatIdempotent(opts: seq<Opt>, x: Opt)
    ensures OptionNew(opts + [x, x]) == OptionNew(opts + [x])
  {
    OptionsAsSet(opts + [x, x], opts + [x]);
  }
}
