/**
 * The Thrift enumeration the front end sends aggregate kinds to the back end
 * as. Only the seven constants `toThrift` produces are modelled.
 */
module AggregationThrift {

  datatype TAggregationType = Sum | Max | Min | Replace | HllUnion | None | BitmapUnion
  {
    /** The name of the Thrift constant. */
    function Name(): string
    {
      match this
      case Sum => "SUM"
      case Max => "MAX"
      case Min => "MIN"
      case Replace => "REPLACE"
      case HllUnion => "HLL_UNION"
      case None => "NONE"
      case BitmapUnion => "BITMAP_UNION"
    }
  }
}

/**
 * The aggregate kinds a value column may carry, which primitive column types
 * each of them accepts, and their SQL and Thrift names.
 */
module AggregateTypes {
  import AggregationThrift

  /** The primitive column types this table mentions, and all others as one. */
  datatype PrimitiveType =
    | TinyInt | SmallInt | Int | BigInt | LargeInt | Float | Double | Decimal | DecimalV2
    | Date | DateTime | Char | Varchar | Hll
    | OtherType

  /** Every primitive type, as listed above. */
  const PRIMITIVE_TYPES: set<PrimitiveType> :=
    {TinyInt, SmallInt, Int, BigInt, LargeInt, Float, Double, Decimal, DecimalV2,
     Date, DateTime, Char, Varchar, Hll, OtherType}

  lemma EveryPrimitiveTypeListed()
    ensures forall p: PrimitiveType :: p in PRIMITIVE_TYPES
  {
    forall p: PrimitiveType
      ensures p in PRIMITIVE_TYPES
    {
      match p
      case TinyInt => case SmallInt => case Int => case BigInt => case LargeInt =>
      case Float => case Double => case Decimal => case DecimalV2 =>
      case Date => case DateTime => case Char => case Varchar => case Hll =>
      case OtherType =>
    }
  }

  /** `EnumSet.allOf(PrimitiveType.class)`. */
  function AllPrimitiveTypes(): (all: set<PrimitiveType>)
    ensures forall p: PrimitiveType :: p in all
  {
    EveryPrimitiveTypeListed();
    PRIMITIVE_TYPES
  }

  /** The result of Java's implicit `AggregateType.valueOf(name)`. */
  datatype ValueOfResult = Constant(aggType: AggregateType) | IllegalArgument

  /** A reference nullable to a Thrift constant, as `toThrift` returns it. */
  datatype ThriftRef = Null | Ref(value: AggregationThrift.TAggregationType)

  datatype AggregateType = Sum | Min | Max | Replace | HllUnion | None | BitmapUnion
  {
    /** Java's `name()`: the identifier the constant is declared with. */
    function Name(): string
    {
      match this
      case Sum => "SUM"
      case Min => "MIN"
      case Max => "MAX"
      case Replace => "REPLACE"
      case HllUnion => "HLL_UNION"
      case None => "NONE"
      case BitmapUnion => "BITMAP_UNION"
    }

    /**
     * The `sqlName` argument each constant is constructed with, kept in the
     * `sqlName` field: it is spelled as the constant itself.
     */
    function SqlName(): (s: string)
      ensures s == Name()
    {
      match this
      case Sum => "SUM"
      case Min => "MIN"
      case Max => "MAX"
      case Replace => "REPLACE"
      case HllUnion => "HLL_UNION"
      case None => "NONE"
      case BitmapUnion => "BITMAP_UNION"
    }

    /** `toSql`: the declared SQL name, which is the constant's own name. */
    function ToSql(): (s: string)
      ensures s == Name()
      ensures ValueOf(s) == Constant(this)
    {
      SqlName()
    }

    /** `toString` prints the SQL name. */
    function ToString(): (s: string)
      ensures s == Name() && s == ToSql()
    {
      ToSql()
    }

    /** The instance form of `checkCompatibility` defers to the static form. */
    function CompatibleWith(priType: PrimitiveType): (r: bool)
      ensures r == CheckCompatibility(this, priType)
    {
      CheckCompatibility(this, priType)
    }

    /**
     * `toThrift`: every declared constant has its case in the switch, so the
     * `default: return null` branch is never taken, and the Thrift constant
     * has the same name.
     */
    function ToThrift(): (r: ThriftRef)
      ensures r.Ref? && r.value.Name() == Name()
    {
      match this
      case Sum => Ref(AggregationThrift.Sum)
      case Max => Ref(AggregationThrift.Max)
      case Min => Ref(AggregationThrift.Min)
      case Replace => Ref(AggregationThrift.Replace)
      case None => Ref(AggregationThrift.None)
      case HllUnion => Ref(AggregationThrift.HllUnion)
      case BitmapUnion => Ref(AggregationThrift.BitmapUnion)
    }
  }

  /** Java's implicit `valueOf`: the constant declared with that name, if any. */
  function ValueOf(name: string): (r: ValueOfResult)
    ensures r.Constant? ==> r.aggType.Name() == name
  {
    if name == "SUM" then Constant(Sum)
    else if name == "MIN" then Constant(Min)
    else if name == "MAX" then Constant(Max)
    else if name == "REPLACE" then Constant(Replace)
    else if name == "HLL_UNION" then Constant(HllUnion)
    else if name == "NONE" then Constant(None)
    else if name == "BITMAP_UNION" then Constant(BitmapUnion)
    else IllegalArgument
  }

  /** The list the static initialiser builds for SUM: the numeric types. */
  const SUM_TYPES: set<PrimitiveType> :=
    {TinyInt, SmallInt, Int, BigInt, LargeInt, Float, Double, Decimal, DecimalV2}

  /** The list it builds for MIN and for MAX: the numeric types, dates and strings. */
  const MIN_MAX_TYPES: set<PrimitiveType> := SUM_TYPES + {Date, DateTime, Char, Varchar}

  /** Every aggregate type, in declaration order. */
  const AGGREGATE_TYPES: set<AggregateType> := {Sum, Min, Max, Replace, HllUnion, None, BitmapUnion}

  lemma EveryAggregateTypeListed()
    ensures forall t: AggregateType :: t in AGGREGATE_TYPES
  {
    forall t: AggregateType
      ensures t in AGGREGATE_TYPES
    {
      match t
      case Sum => case Min => case Max => case Replace => case HllUnion => case None =>
      case BitmapUnion =>
    }
  }

  /** `compatibilityMap` as the static initialiser leaves it. */
  function CompatibilityMap(): (m: map<AggregateType, set<PrimitiveType>>)
    ensures forall t: AggregateType :: t in m
  {
    var m := map[
      Sum := SUM_TYPES,
      Min := MIN_MAX_TYPES,
      Max := MIN_MAX_TYPES,
      Replace := AllPrimitiveTypes(),
      HllUnion := {Hll},
      BitmapUnion := {Varchar},
      None := AllPrimitiveTypes()
    ];
    assert forall t: AggregateType :: t in m by {
      EveryAggregateTypeListed();
      assert m.Keys == AGGREGATE_TYPES;
    }
    m
  }

  /** The numeric primitive types, one by one. */
  predicate IsNumeric(p: PrimitiveType)
  {
    match p
    case TinyInt | SmallInt | Int | BigInt | LargeInt | Float | Double | Decimal | DecimalV2 => true
    case _ => false
  }

  /**
   * The static `checkCompatibility`: whether the entry of `aggType` in the
   * compatibility map holds `priType`. The map has an entry for every
   * aggregate type, so the lookup never meets a missing entry.
   */
  function CheckCompatibility(aggType: AggregateType, priType: PrimitiveType): (r: bool)
    ensures aggType == Sum ==> (r <==> IsNumeric(priType))
    ensures (aggType == Min || aggType == Max)
              ==> (r <==> IsNumeric(priType) || priType in {Date, DateTime, Char, Varchar})
    ensures aggType == Replace || aggType == None ==> r
    ensures aggType == HllUnion ==> (r <==> priType == Hll)
    ensures aggType == BitmapUnion ==> (r <==> priType == Varchar)
  {
    var m := CompatibilityMap();
    priType in m[aggType]
  }

  /** The list the initialiser builds for SUM is exactly the numeric types. */
  lemma SumListIsNumeric(p: PrimitiveType)
    ensures p in SUM_TYPES <==> IsNumeric(p)
  {
  }

  /**
   * MIN and MAX accept the same types, and whatever SUM accepts, MIN and MAX
   * accept too.
   */
  lemma MinMaxExtendSum(p: PrimitiveType)
    ensures CheckCompatibility(Min, p) == CheckCompatibility(Max, p)
    ensures CheckCompatibility(Sum, p) ==> CheckCompatibility(Min, p) && CheckCompatibility(Max, p)
  {
  }

  /** Different aggregate types have different SQL names. */
  lemma ToSqlInjective(a: AggregateType, b: AggregateType)
    ensures a.ToSql() == b.ToSql() ==> a == b
  {
    assert ValueOf(a.ToSql()) == Constant(a);
    assert ValueOf(b.ToSql()) == Constant(b);
  }

  /** `valueOf` and `toSql` are inverse: a name that parses prints back as itself. */
  lemma ValueOfToSql(name: string)
    ensures ValueOf(name).Constant? ==> ValueOf(name).aggType.ToSql() == name
  {
  }

  /** Different aggregate types map to different Thrift constants. */
  lemma ToThriftInjective(a: AggregateType, b: AggregateType)
    ensures a.ToThrift() == b.ToThrift() ==> a == b
  {
  }
}
