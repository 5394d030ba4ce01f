/** The mount option fold of mount.c: `parse_opt` and the token loop of `xmount`. */
module MountOptions {
  import opened Bytes
  import Bits
  import Tokens

  // Flag values of <sys/mount.h>.
  const MS_RDONLY: nat := 1
  const MS_NOSUID: nat := 2
  const MS_NODEV: nat := 4
  const MS_NOEXEC: nat := 8
  const MS_SYNCHRONOUS: nat := 16
  const MS_MANDLOCK: nat := 64
  const MS_DIRSYNC: nat := 128
  const MS_NOATIME: nat := 1024
  const MS_NODIRATIME: nat := 2048
  const MS_BIND: nat := 4096
  const MS_REC: nat := 16384
  const MS_MGC_VAL: nat := 0xC0ED_0000
  /** The magic number keeps to the bits from here up, the options to the bits below. */
  const MAGIC_FROM := 16

  datatype Opt = Opt(name: string, invert: bool, value: nat)

  /** `opt_map`. */
  const OPT_MAP: seq<Opt> := [
    Opt("defaults", false, 0),
    Opt("rw", true, MS_RDONLY),
    Opt("ro", false, MS_RDONLY),
    Opt("suid", true, MS_NOSUID),
    Opt("nosuid", false, MS_NOSUID),
    Opt("dev", true, MS_NODEV),
    Opt("nodev", false, MS_NODEV),
    Opt("exec", true, MS_NOEXEC),
    Opt("noexec", false, MS_NOEXEC),
    Opt("sync", false, MS_SYNCHRONOUS),
    Opt("async", true, MS_SYNCHRONOUS),
    Opt("mand", false, MS_MANDLOCK),
    Opt("nomand", true, MS_MANDLOCK),
    Opt("dirsync", false, MS_DIRSYNC),
    Opt("dirasync", true, MS_DIRSYNC),
    Opt("bind", false, MS_BIND),
    Opt("rbind", false, Bits.Or(MS_BIND, MS_REC)),
    Opt("atime", true, MS_NOATIME),
    Opt("noatime", false, MS_NOATIME),
    Opt("diratime", true, MS_NODIRATIME),
    Opt("nodiratime", false, MS_NODIRATIME)
  ]

  /** The first entry of a table with the given name. */
  function Find(table: seq<Opt>, name: string): (r: Option<Opt>)
    ensures r.Some? ==> r.value in table && r.value.name == name
    ensures r.None? ==> forall o | o in table :: o.name != name
  {
    if table == [] then None
    else if table[0].name == name then Some(table[0])
    else Find(table[1..], name)
  }

  // ------------------------------------------------------------ group names

  function Digits(n: nat): (s: string)
    ensures s != "" && forall i | 0 <= i < |s| :: '0' <= s[i] <= '9'
  {
    var d := ['0', '1', '2', '3', '4', '5', '6', '7', '8', '9'][n % 10];
    if n < 10 then [d] else Digits(n / 10) + [d]
  }

  predicate IsDigitAt(s: string, i: nat) {
    i < |s| && '0' <= s[i] <= '9'
  }

  /** What an unrecognised option contributes to the residual string: group names become numbers when the lookup knows them. */
  function Resolve(opt: string, groups: string -> Option<nat>): string {
    if "gid=" <= opt && !IsDigitAt(opt, 4) && groups(opt[4..]).Some?
    then "gid=" + Digits(groups(opt[4..]).value)
    else opt
  }

  // ------------------------------------------------------------ the fold

  function ApplyFlag(table: seq<Opt>, flags: nat, opt: string): nat {
    match Find(table, opt)
    case None => flags
    case Some(o) => if o.invert then Bits.AndNot(flags, o.value) else Bits.Or(flags, o.value)
  }

  function FoldFlags(table: seq<Opt>, flags: nat, tokens: seq<string>): nat {
    if tokens == [] then flags
    else ApplyFlag(table, FoldFlags(table, flags, tokens[..|tokens| - 1]), tokens[|tokens| - 1])
  }

  /** The unrecognised tokens, resolved, in order. */
  function Unrecognised(table: seq<Opt>, tokens: seq<string>, groups: string -> Option<nat>): seq<string> {
    if tokens == [] then []
    else
      var front := Unrecognised(table, tokens[..|tokens| - 1], groups);
      var last := tokens[|tokens| - 1];
      if Find(table, last).Some? then front else front + [Resolve(last, groups)]
  }

  /** The residual string: null until the first unrecognised option. */
  function Residual(rest: seq<string>): Option<string> {
    if rest == [] then None else Some(Tokens.Join(rest, ','))
  }

  // ---------------------------------------------------------------- the code

  /** `parse_opt`. */
  method ParseOpt(table: seq<Opt>, opt: string, flags: nat, options: Option<string>, groups: string -> Option<nat>)
    returns (flags': nat, options': Option<string>)
    ensures flags' == ApplyFlag(table, flags, opt)
    ensures options' == (if Find(table, opt).Some? then options
                         else if options.Some? then Some(options.value + "," + Resolve(opt, groups))
                         else Some(Resolve(opt, groups)))
  {
    flags', options' := flags, options;
    var i := 0;
    while i < |table| && opt != table[i].name
      invariant 0 <= i <= |table|
      invariant Find(table, opt) == Find(table[i..], opt)
    {
      assert table[i..][1..] == table[i + 1..];
      i := i + 1;
    }
    if i < |table| {
      assert table[i..][0] == table[i];
      if table[i].invert {
        flags' := Bits.AndNot(flags, table[i].value);
      } else {
        flags' := Bits.Or(flags, table[i].value);
      }
      return;
    }
    var text := opt;
    if "gid=" <= opt && !IsDigitAt(opt, 4) {
      var gr := groups(opt[4..]);
      if gr.Some? {
        text := "gid=" + Digits(gr.value);
      }
    }
    if options.Some? {
      options' := Some(options.value + "," + text);
    } else {
      options' := Some(text);
    }
  }

  /** The loop of `xmount`: the flags and the data string handed to `mount`. */
  method FoldOptions(table: seq<Opt>, opts: string, groups: string -> Option<nat>) returns (flags: nat, data: string)
    ensures var tokens := Tokens.All(opts, {','});
            && flags == FoldFlags(table, Bits.Or(MS_MGC_VAL, MS_NOSUID), tokens)
            && data == Tokens.Join(Unrecognised(table, tokens, groups), ',')
  {
    ghost var tokens := Tokens.All(opts, {','});
    ghost var n := 0;
    flags := Bits.Or(MS_MGC_VAL, MS_NOSUID);
    var options: Option<string> := None;
    var opt := Tokens.Next(opts, {','});
    while opt.Some?
      invariant 0 <= n <= |tokens|
      invariant flags == FoldFlags(table, Bits.Or(MS_MGC_VAL, MS_NOSUID), tokens[..n])
      invariant options == Residual(Unrecognised(table, tokens[..n], groups))
      invariant tokens[n..] == if opt.None? then [] else [opt.value.0] + Tokens.All(opt.value.1, {','})
      decreases if opt.None? then 0 else |opt.value.1| + 1
    {
      var (token, rest) := opt.value;
      assert tokens[n] == tokens[n..][0] && tokens[n + 1..] == tokens[n..][1..];
      assert tokens[..n + 1][..n] == tokens[..n];
      ghost var before := Unrecognised(table, tokens[..n], groups);
      assert (before + [Resolve(token, groups)])[..|before|] == before;
      flags, options := ParseOpt(table, token, flags, options, groups);
      n := n + 1;
      opt := Tokens.Next(rest, {','});
    }
    assert tokens[..n] == tokens;
    data := if options.Some? then options.value else "";
  }

  // ------------------------------------------------------------- correctness

  /** The verdict of the last token that names bit k, or the starting value. */
  function LastDecision(table: seq<Opt>, tokens: seq<string>, k: nat, start: bool): bool {
    if tokens == [] then start
    else
      match Find(table, tokens[|tokens| - 1])
      case Some(o) =>
        if Bits.Bit(o.value, k) then !o.invert else LastDecision(table, tokens[..|tokens| - 1], k, start)
      case None => LastDecision(table, tokens[..|tokens| - 1], k, start)
  }

  /** Every flag bit ends as the last token that names it decided. */
  lemma {:induction false} LastTokenDecides(table: seq<Opt>, flags: nat, tokens: seq<string>, k: nat)
    ensures Bits.Bit(FoldFlags(table, flags, tokens), k) <==> LastDecision(table, tokens, k, Bits.Bit(flags, k))
  {
    if tokens != [] {
      var front, last := tokens[..|tokens| - 1], tokens[|tokens| - 1];
      LastTokenDecides(table, flags, front, k);
      match Find(table, last) {
        case Some(o) =>
          Bits.BitOr(FoldFlags(table, flags, front), o.value, k);
          Bits.BitAndNot(FoldFlags(table, flags, front), o.value, k);
        case None =>
      }
    }
  }

  /** No entry of the table names a bit of the magic number. */
  predicate Low(table: seq<Opt>) {
    forall o | o in table :: o.value < Bits.Pow2(MAGIC_FROM)
  }

  lemma OptMapIsLow()
    ensures Low(OPT_MAP)
  {
    var rbind := Bits.Or(MS_BIND, MS_REC);
    assert rbind < 0x1_0000 by {
      Bits.Pow2Values();
      Bits.OrAtLeast(MS_BIND, MS_REC, MAGIC_FROM);
    }
    forall i | 0 <= i < |OPT_MAP|
      ensures OPT_MAP[i].value < 0x1_0000
    {
      assert OPT_MAP[i].value in
        {0, MS_RDONLY, MS_NOSUID, MS_NODEV, MS_NOEXEC, MS_SYNCHRONOUS, MS_MANDLOCK, MS_DIRSYNC,
         MS_NOATIME, MS_NODIRATIME, MS_BIND, rbind};
    }
    Bits.Pow2Values();
  }

  lemma {:induction false} UndecidedAbove(table: seq<Opt>, tokens: seq<string>, k: nat, start: bool)
    requires Low(table) && k >= MAGIC_FROM
    ensures LastDecision(table, tokens, k, start) == start
  {
    if tokens != [] {
      UndecidedAbove(table, tokens[..|tokens| - 1], k, start);
      var o := Find(table, tokens[|tokens| - 1]);
      if o.Some? {
        Bits.SmallHasNoHighBit(o.value.value, k, MAGIC_FROM);
      }
    }
  }

  /** No option list can disturb the magic number. */
  lemma MagicSurvives(table: seq<Opt>, tokens: seq<string>, k: nat)
    requires Low(table) && k >= MAGIC_FROM
    ensures Bits.Bit(FoldFlags(table, Bits.Or(MS_MGC_VAL, MS_NOSUID), tokens), k) <==> Bits.Bit(MS_MGC_VAL, k)
  {
    var start := Bits.Or(MS_MGC_VAL, MS_NOSUID);
    LastTokenDecides(table, start, tokens, k);
    UndecidedAbove(table, tokens, k, Bits.Bit(start, k));
    Bits.BitOr(MS_MGC_VAL, MS_NOSUID, k);
    Bits.Pow2Values();
    Bits.SmallHasNoHighBit(MS_NOSUID, k, MAGIC_FROM);
  }

  /** The program's own option table, for the flags as `xmount` starts them. */
  lemma OptMapKeepsMagic(tokens: seq<string>, k: nat)
    requires k >= MAGIC_FROM
    ensures Bits.Bit(FoldFlags(OPT_MAP, Bits.Or(MS_MGC_VAL, MS_NOSUID), tokens), k) <==> Bits.Bit(MS_MGC_VAL, k)
  {
    hide Low, FoldFlags;
    OptMapIsLow();
    MagicSurvives(OPT_MAP, tokens, k);
  }

  lemma {:induction false} UnrecognisedAreTokens(table: seq<Opt>, tokens: seq<string>, groups: string -> Option<nat>)
    requires forall t | t in tokens :: Tokens.IsToken(t, {','})
    ensures forall t | t in Unrecognised(table, tokens, groups) :: Tokens.IsToken(t, {','})
  {
    if tokens != [] {
      var front, last := tokens[..|tokens| - 1], tokens[|tokens| - 1];
      assert forall t | t in front :: t in tokens;
      UnrecognisedAreTokens(table, front, groups);
      assert last in tokens;
      var r := Resolve(last, groups);
      assert forall i | 0 <= i < |r| :: r[i] != ',';
    }
  }

  /** The data string splits back into exactly the unrecognised options, in order, with known group names as numbers. */
  lemma ResidualSplitsBack(table: seq<Opt>, opts: string, groups: string -> Option<nat>)
    ensures var rest := Unrecognised(table, Tokens.All(opts, {','}), groups);
            Tokens.All(Tokens.Join(rest, ','), {','}) == rest
  {
    Tokens.AllAreTokens(opts, {','});
    UnrecognisedAreTokens(table, Tokens.All(opts, {','}), groups);
    Tokens.SplitJoin(Unrecognised(table, Tokens.All(opts, {','}), groups), ',');
  }

  /** The number a string of decimal digits stands for. */
  function Number(s: string): nat
    requires forall i | 0 <= i < |s| :: '0' <= s[i] <= '9'
  {
    if s == "" then 0 else 10 * Number(s[..|s| - 1]) + (s[|s| - 1] as int - '0' as int)
  }

  /** The digits written for a group are those of its number, without a leading zero. */
  lemma {:induction false} DigitsDenote(n: nat)
    ensures Number(Digits(n)) == n && (n > 0 ==> Digits(n)[0] != '0')
  {
    if n >= 10 {
      DigitsDenote(n / 10);
      assert Digits(n)[..|Digits(n)| - 1] == Digits(n / 10);
    }
  }

  /** A group option that names a known group is replaced by its number; one that gives a number, or an unknown name, is kept, as is any other option. */
  lemma ResolvedExactly(name: string, groups: string -> Option<nat>, opt: string)
    ensures (name == "" || !('0' <= name[0] <= '9')) && groups(name).Some? ==>
              Resolve("gid=" + name, groups) == "gid=" + Digits(groups(name).value)
    ensures (name != "" && '0' <= name[0] <= '9') || groups(name).None? ==> Resolve("gid=" + name, groups) == "gid=" + name
    ensures !("gid=" <= opt) ==> Resolve(opt, groups) == opt
  {
    var gid := "gid=";
    assert |gid| == 4 && (gid + name)[4..] == name && gid <= gid + name;
    assert name != "" ==> (gid + name)[4] == name[0];
  }
}
