/** The compile-time side of the pretty-printer (include/print/print.h):
    the type traits `is_char`, `is_string`, `is_c_str`, `is_array`,
    `is_tuple`, `is_iterable`, `is_map`, `is_optional` and `is_variant`
    over a descriptor of the argument's type (after `remove_cvref`), and
    the choice of the `_printer` specialisation they enable. */
module PrintTraits {
  import opened Basics

  /** The character types `is_char` accepts. `char8_t` exists only from
      C++20 on, which is exactly when the trait lists it. */
  datatype CharKind = Narrow | Wide | Utf8 | Utf16 | Utf32

  /** The argument types the printer distinguishes. Top-level `const` is
      stripped by `remove_cvref` and the pointee's `const` by
      `remove_const` in `is_c_str`, so neither is represented. */
  datatype Ty =
    | Scalar                                   // arithmetic (including signed/unsigned char), enums, user types with `operator<<`
    | CharT(kind: CharKind)
    | BasicString(of: CharKind)                // std::basic_string<C>
    | BasicStringView(of: CharKind)            // std::basic_string_view<C>
    | Pointer(target: Ty)                      // T* and T const*
    | RawArray(elem: Ty, bound: Option<nat>)   // T[N], or T[] when the bound is unknown
    | StdArray(elem: Ty, size: nat)            // std::array<T, N>
    | Pair(first: Ty, second: Ty)              // std::pair<A, B>
    | TupleT(components: seq<Ty>)              // std::tuple<Ts...>
    | Sequence(elem: Ty)                       // vector, list, deque, set, ...: begin() but no mapped_type
    | Associative(key: Ty, mapped: Ty)         // map, unordered_map, multimap
    | OptionalT(elem: Ty)
    | VariantT(alternatives: seq<Ty>)
    | NullptrT
    | NulloptT
    | MonostateT

  predicate IsChar(t: Ty) { t.CharT? }

  /** `std::basic_string` or `std::basic_string_view` of a character type. */
  predicate IsString(t: Ty) { t.BasicString? || t.BasicStringView? }

  /** After `decay` the type is a pointer whose pointee, without `const`, is
      a character type: character pointers and character arrays. */
  predicate IsCStr(t: Ty) {
    (t.Pointer? && IsChar(t.target)) || (t.RawArray? && IsChar(t.elem))
  }

  /** `T[]`, `T[N]` or `std::array<T, N>`. */
  predicate IsArray(t: Ty) { t.RawArray? || t.StdArray? }

  /** `std::tuple_size<T>` is defined: pairs, tuples and `std::array`. */
  predicate IsTuple(t: Ty) { t.Pair? || t.TupleT? || t.StdArray? }

  /** `std::begin` applies to a `T const &`: arrays of known bound and
      every container, strings included. */
  predicate IsIterable(t: Ty) {
    || (t.RawArray? && t.bound.Some?)
    || t.StdArray? || t.Sequence? || t.Associative?
    || t.BasicString? || t.BasicStringView?
  }

  /** `value_type` is `pair<key_type const, mapped_type>`. */
  predicate IsMap(t: Ty) { t.Associative? }

  predicate IsOptional(t: Ty) { t.OptionalT? }

  predicate IsVariant(t: Ty) { t.VariantT? }

  /** The `_printer` class templates: the primary one (`os << val`), six
      partial specialisations guarded by `enable_if`, and three full
      specialisations. */
  datatype PrinterKind =
    | DefaultP | CharP | TupleP | IterableP | MapP | OptionalP | VariantP
    | NullptrP | NulloptP | MonostateP

  /** Whether specialisation `p` is viable for `t`: its `enable_if`
      condition holds, or `t` is the type it is written for. The primary
      template is not a specialisation. */
  predicate Enables(p: PrinterKind, t: Ty) {
    match p
    case DefaultP => false
    case CharP => IsChar(t)
    case TupleP => IsTuple(t) && !IsArray(t)
    case IterableP => IsIterable(t) && !IsMap(t) && !IsCStr(t) && !IsString(t)
    case MapP => IsMap(t)
    case OptionalP => IsOptional(t)
    case VariantP => IsVariant(t)
    case NullptrP => t == NullptrT
    case NulloptP => t == NulloptT
    case MonostateP => t == MonostateT
  }

  /** The printer `_printer<T>` instantiates for `t`, read off the type's
      shape. The guards never overlap, so no argument type is ambiguous:
      the chosen specialisation is the only viable one, and the primary
      template is used exactly when none is viable. */
  function Select(t: Ty): (r: PrinterKind)
    ensures r != DefaultP ==> Enables(r, t)
    ensures forall p :: Enables(p, t) ==> p == r
  {
    match t
    case Scalar => DefaultP
    case CharT(_) => CharP
    case BasicString(_) => DefaultP
    case BasicStringView(_) => DefaultP
    case Pointer(_) => DefaultP
    case RawArray(e, n) => if n.Some? && !e.CharT? then IterableP else DefaultP
    case StdArray(_, _) => IterableP
    case Pair(_, _) => TupleP
    case TupleT(_) => TupleP
    case Sequence(_) => IterableP
    case Associative(_, _) => MapP
    case OptionalT(_) => OptionalP
    case VariantT(_) => VariantP
    case NullptrT => NullptrP
    case NulloptT => NulloptP
    case MonostateT => MonostateP
  }
}
