/**
 * Registration of extra-data fields. Each `@RegisterExtraData` method is described by its
 * annotation (a name and a bit size), the shape of its signature, and the per-block predicate it
 * computes. A registration passes `validRegistrationMethod` or is skipped; an accepted one
 * records, under its bit size and name, the set of registered blocks its predicate accepts.
 */
module Registration {
  import opened Wrappers
  import opened Factories

  /** A registered block, known by its identity only. */
  datatype Block = Block(uri: string)

  /** The Java types the check distinguishes: `boolean`, `Block`, and anything else. */
  datatype JavaType = BooleanType | BlockType | OtherType(name: string)

  /** What the check reads from a reflected `Method`. */
  datatype MethodShape = MethodShape(returnType: JavaType, isStatic: bool, parameterTypes: seq<JavaType>)

  /** The reasons `validRegistrationMethod` can give, in the order it checks them. */
  datatype RegistrationError =
    | IncorrectReturnType
    | InvalidBitSize
    | NotStatic
    | WrongArgumentCount
    | IncorrectArgumentType
  {
    /** The string the Java method returns for this reason. */
    function Message(): string {
      match this
      case IncorrectReturnType => "incorrect return type"
      case InvalidBitSize => "invalid bitSize"
      case NotStatic => "method not static"
      case WrongArgumentCount => "arguments list has wrong length"
      case IncorrectArgumentType => "incorrect argument type"
    }

    /** The position of this check in the chain, earliest first. */
    function Rank(): nat {
      match this
      case IncorrectReturnType => 0
      case InvalidBitSize => 1
      case NotStatic => 2
      case WrongArgumentCount => 3
      case IncorrectArgumentType => 4
    }
  }

  /** Whether a method of shape `m` annotated with `bitSize` passes the check that reports `e`. */
  ghost predicate Passes(m: MethodShape, bitSize: int, e: RegistrationError) {
    match e
    case IncorrectReturnType => m.returnType == BooleanType
    case InvalidBitSize => bitSize in TeraArrayFactories
    case NotStatic => m.isStatic
    case WrongArgumentCount => |m.parameterTypes| == 1
    case IncorrectArgumentType => |m.parameterTypes| == 1 ==> m.parameterTypes[0] == BlockType
  }

  /**
   * `validRegistrationMethod`: no error exactly when every check passes; otherwise the error of
   * the first check that fails.
   */
  function ValidRegistrationMethod(m: MethodShape, bitSize: int): (r: Option<RegistrationError>)
    ensures r.None? <==> forall e :: Passes(m, bitSize, e)
    ensures r.Some? ==> !Passes(m, bitSize, r.value)
    ensures r.Some? ==> forall e: RegistrationError :: e.Rank() < r.value.Rank() ==> Passes(m, bitSize, e)
  {
    if m.returnType != BooleanType then
      assert !Passes(m, bitSize, IncorrectReturnType);
      Some(IncorrectReturnType)
    else if bitSize !in TeraArrayFactories then
      assert !Passes(m, bitSize, InvalidBitSize);
      Some(InvalidBitSize)
    else if !m.isStatic then
      assert !Passes(m, bitSize, NotStatic);
      Some(NotStatic)
    else if |m.parameterTypes| != 1 then
      assert !Passes(m, bitSize, WrongArgumentCount);
      Some(WrongArgumentCount)
    else if m.parameterTypes[0] != BlockType then
      assert !Passes(m, bitSize, IncorrectArgumentType);
      Some(IncorrectArgumentType)
    else None
  }

  /** One `@RegisterExtraData` method: annotation name and bit size, signature, and predicate. */
  datatype Registration = Registration(name: string, bitSize: int, shape: MethodShape, applies: Block -> bool)

  /** A registration that passes the check and is therefore recorded. */
  ghost predicate Accepted(r: Registration) {
    ValidRegistrationMethod(r.shape, r.bitSize).None?
  }

  /** The blocks among `blocks` for which the field applies. */
  ghost function Applicable(applies: Block -> bool, blocks: seq<Block>): set<Block> {
    set b | b in blocks && applies(b)
  }

  /** The field map before any registration: one empty group per supported bit size. */
  function EmptyGroups(): map<int, map<string, set<Block>>> {
    map s | s in TeraArrayFactories :: map[]
  }

  /**
   * The groups after the registrations `regs`, in order: each accepted one overwrites the entry
   * for its name in its bit size's group.
   */
  ghost function Registered(regs: seq<Registration>, blocks: seq<Block>): (f: map<int, map<string, set<Block>>>)
    ensures f.Keys == TeraArrayFactories.Keys
  {
    if regs == [] then EmptyGroups()
    else
      var f := Registered(regs[..|regs| - 1], blocks);
      var r := regs[|regs| - 1];
      if Accepted(r) then
        assert Passes(r.shape, r.bitSize, InvalidBitSize);
        f[r.bitSize := f[r.bitSize][r.name := Applicable(r.applies, blocks)]]
      else f
  }

  /** Registration `r` records field `name` in the group of bit size `s`. */
  ghost predicate Records(r: Registration, s: int, name: string) {
    Accepted(r) && r.bitSize == s && r.name == name
  }

  /** `regs[k]` records `name` under `s` and no later registration does. */
  ghost predicate LatestFor(regs: seq<Registration>, k: int, s: int, name: string) {
    && 0 <= k < |regs|
    && Records(regs[k], s, name)
    && forall k' :: k < k' < |regs| ==> !Records(regs[k'], s, name)
  }

  /**
   * Field `name` is in the group of bit size `s` exactly when some accepted registration
   * recorded it there, and its block set is the one of the last such registration.
   */
  lemma {:induction false} LastRegistrationWins(regs: seq<Registration>, blocks: seq<Block>, s: int, name: string)
    requires s in TeraArrayFactories
    ensures name in Registered(regs, blocks)[s] <==> exists k :: LatestFor(regs, k, s, name)
    ensures forall k :: LatestFor(regs, k, s, name) ==>
      Registered(regs, blocks)[s][name] == Applicable(regs[k].applies, blocks)
  {
    if regs != [] {
      var n := |regs| - 1;
      var p := regs[..n];
      LastRegistrationWins(p, blocks, s, name);
      forall k | 0 <= k < n
        ensures LatestFor(p, k, s, name) <==> LatestFor(regs, k, s, name) || (LatestFor(p, k, s, name) && Records(regs[n], s, name))
      {
        assert p[k] == regs[k];
        assert forall k' :: k < k' < n ==> p[k'] == regs[k'];
      }
      if Records(regs[n], s, name) {
        assert LatestFor(regs, n, s, name);
      } else if Accepted(regs[n]) {
        assert Passes(regs[n].shape, regs[n].bitSize, InvalidBitSize);
      }
    }
  }

  /** The loop at the heart of each registration: the blocks for which the predicate holds. */
  method IncludedBlocks(applies: Block -> bool, blocks: seq<Block>) returns (included: set<Block>)
    ensures forall b :: b in included <==> b in blocks && applies(b)
  {
    included := {};
    for i := 0 to |blocks|
      invariant forall b :: b in included <==> b in blocks[..i] && applies(b)
    {
      assert blocks[..i + 1] == blocks[..i] + [blocks[i]];
      if applies(blocks[i]) {
        included := included + {blocks[i]};
      }
    }
    assert blocks[..|blocks|] == blocks;
  }

  /**
   * The registration loops of the constructor: every accepted registration, in discovery order,
   * records its applicable blocks under its bit size and name; rejected ones are skipped.
   */
  method CollectFields(regs: seq<Registration>, blocks: seq<Block>) returns (fieldss: map<int, map<string, set<Block>>>)
    ensures fieldss == Registered(regs, blocks)
  {
    fieldss := EmptyGroups();
    for i := 0 to |regs|
      invariant fieldss == Registered(regs[..i], blocks)
    {
      var r := regs[i];
      assert regs[..i + 1][..i] == regs[..i];
      var errorType := ValidRegistrationMethod(r.shape, r.bitSize);
      if errorType == None {
        assert Passes(r.shape, r.bitSize, InvalidBitSize);
        var included := IncludedBlocks(r.applies, blocks);
        assert included == Applicable(r.applies, blocks);
        fieldss := fieldss[r.bitSize := fieldss[r.bitSize][r.name := included]];
      }
    }
    assert regs[..|regs|] == regs;
  }
}
