/** The request transforms and validation rules of the movie and user DTOs:
    `toOptionalTrimmedString`, `toOptionalNumber`, `parseCategories`, the
    rating bounds, the listing query's page, limit, type and order rules,
    and the username length rule. A request field is `None` when absent
    (`undefined`) and `Some(v)` for any other JSON value. */
module Transforms {
  import opened Outcomes
  import opened Json
  import opened Text

  predicate IsText(v: Option<Value>) {
    v.Some? && v.value.Str?
  }

  // ---------------------------------------------------------------------
  // toOptionalTrimmedString

  /** `toOptionalTrimmedString`: a string is trimmed, and dropped when
      nothing is left; any other value passes through. So the result is
      never the empty string, and a string result has no white space at
      either end. */
  function ToOptionalTrimmedString(v: Option<Value>): (r: Option<Value>)
    ensures !IsText(v) ==> r == v
    ensures IsText(v) ==> (r.None? <==> AllSpace(v.value.s))
    ensures IsText(v) && r.Some? ==> r.value == Str(Trim(v.value.s))
    ensures IsText(r) ==> r.value.s != "" && IsTrimmed(r.value.s)
  {
    match v
    case Some(Str(s)) =>
      var t := Trim(s);
      if t == "" then None else Some(Str(t))
    case _ => v
  }

  /** Running the transform on its own output changes nothing. */
  lemma ToOptionalTrimmedStringIdempotent(v: Option<Value>)
    ensures ToOptionalTrimmedString(ToOptionalTrimmedString(v)) == ToOptionalTrimmedString(v)
  {
    if IsText(v) {
      TrimIdempotent(v.value.s);
    }
  }

  /** The rule the profile and user services apply to a text field
      themselves: `typeof v === 'string' && v.trim() !== ''` selects the
      trimmed string, anything else means "leave the column alone". */
  function NonBlankText(v: Option<Value>): (r: Option<string>)
    ensures r.Some? <==> IsText(v) && !AllSpace(v.value.s)
    ensures r.Some? ==> r.value == Trim(v.value.s)
  {
    if IsText(v) && Trim(v.value.s) != "" then Some(Trim(v.value.s)) else None
  }

  /** The services' own rule agrees with the DTO transform: a field selects
      a new value exactly when `toOptionalTrimmedString` leaves a string, and
      that string is the value; so the value is never blank and has no
      white space at either end. */
  lemma NonBlankTextIsTransform(v: Option<Value>)
    ensures NonBlankText(v).Some? <==> IsText(ToOptionalTrimmedString(v))
    ensures NonBlankText(v).Some? ==>
      && ToOptionalTrimmedString(v) == Some(Str(NonBlankText(v).value))
      && NonBlankText(v).value != ""
      && IsTrimmed(NonBlankText(v).value)
  {
  }

  // ---------------------------------------------------------------------
  // toOptionalNumber

  /** `toOptionalNumber`, with `numberOf` standing for `Number(...)` on a
      trimmed, non-blank string (`None` where it gives NaN). Absent, null
      and blank strings become absent; a numeric string becomes its number;
      any other string, and every other value, passes through unchanged. */
  function ToOptionalNumber(v: Option<Value>, numberOf: string -> Option<real>): (r: Option<Value>)
    ensures v.None? || v == Some(Null) ==> r.None?
    ensures IsText(v) && AllSpace(v.value.s) ==> r.None?
    ensures IsText(v) && !AllSpace(v.value.s) ==>
      r == (match numberOf(Trim(v.value.s)) case Some(n) => Some(Num(n)) case None => v)
    ensures !IsText(v) && v.Some? && v != Some(Null) ==> r == v
    ensures r != Some(Null)
  {
    match v
    case None => None
    case Some(Null) => None
    case Some(Str(s)) =>
      var t := Trim(s);
      if t == "" then None
      else
        (match numberOf(t)
         case Some(n) => Some(Num(n))
         case None => v)
    case _ => v
  }

  /** Running the transform on its own output changes nothing. */
  lemma ToOptionalNumberIdempotent(v: Option<Value>, numberOf: string -> Option<real>)
    ensures ToOptionalNumber(ToOptionalNumber(v, numberOf), numberOf) == ToOptionalNumber(v, numberOf)
  {
  }

  // ---------------------------------------------------------------------
  // parseCategories

  /** The pieces of `t` between commas, each trimmed. */
  function SplitItems(t: string): (items: seq<Value>)
    ensures |items| == |Split(t, ',')|
    ensures forall i :: 0 <= i < |items| ==> items[i] == Str(Trim(Split(t, ',')[i]))
  {
    var pieces := Split(t, ',');
    seq(|pieces|, i requires 0 <= i < |pieces| => Str(Trim(pieces[i])))
  }

  /** `parseCategories`, with `parse` standing for `JSON.parse` (`None`
      where it throws). Arrays and non-strings pass through. A blank string
      is the empty list. A string starting with `[` is parsed: an array
      result is kept, any other result is the empty list, and a parse
      failure falls back to comma splitting. Any other string is split on
      commas and each piece trimmed. A string always yields an array. */
  function ParseCategories(v: Option<Value>, parse: string -> Option<Value>): (r: Option<Value>)
    ensures !IsText(v) ==> r == v
    ensures IsText(v) ==> r.Some? && r.value.Arr?
    ensures IsText(v) && AllSpace(v.value.s) ==> r == Some(Arr([]))
    ensures IsText(v) && !AllSpace(v.value.s) && !StartsWith(Trim(v.value.s), "[") ==>
      r == Some(Arr(SplitItems(Trim(v.value.s))))
    ensures IsText(v) && !AllSpace(v.value.s) && StartsWith(Trim(v.value.s), "[") ==>
      var t := Trim(v.value.s);
      && (parse(t).Some? && parse(t).value.Arr? ==> r == parse(t))
      && (parse(t).Some? && !parse(t).value.Arr? ==> r == Some(Arr([])))
      && (parse(t).None? ==> r == Some(Arr(SplitItems(t))))
  {
    match v
    case Some(Str(s)) =>
      var t := Trim(s);
      if t == "" then Some(Arr([]))
      else if StartsWith(t, "[") then
        (match parse(t)
         case Some(Arr(xs)) => Some(Arr(xs))
         case Some(_) => Some(Arr([]))
         case None => Some(Arr(SplitItems(t))))
      else Some(Arr(SplitItems(t)))
    case _ => v
  }

  /** A comma-separated list yields one trimmed item per comma-separated
      piece: one more item than there are commas, and the untrimmed pieces
      joined back with commas give the trimmed input. */
  lemma ParseCategoriesCommaList(s: string, parse: string -> Option<Value>)
    requires !AllSpace(s) && !StartsWith(Trim(s), "[")
    ensures var r := ParseCategories(Some(Str(s)), parse);
      && r.Some? && r.value.Arr?
      && |r.value.items| == Count(Trim(s), ',') + 1
      && (forall i :: 0 <= i < |r.value.items| ==>
            r.value.items[i] == Str(Trim(Split(Trim(s), ',')[i])))
      && Join(Split(Trim(s), ','), ',') == Trim(s)
  {
    SplitCount(Trim(s), ',');
    JoinSplit(Trim(s), ',');
  }

  // ---------------------------------------------------------------------
  // Rating bounds

  /** `@IsNumber({ maxDecimalPlaces: 1 })`: at most one digit after the
      decimal point. */
  predicate OneDecimal(x: real) {
    (x * 10.0).Floor as real == x * 10.0
  }

  /** The rating a create request may carry: [0, 10], one decimal. */
  predicate CreateRatingValid(x: real) {
    0.0 <= x <= 10.0 && OneDecimal(x)
  }

  /** The rating an update request may carry: [0, 5], one decimal. */
  predicate UpdateRatingValid(x: real) {
    0.0 <= x <= 5.0 && OneDecimal(x)
  }

  /** The update range is strictly narrower than the create range: every
      rating an update accepts a create accepts, but 7.5 is accepted only on
      create. */
  lemma UpdateRatingNarrower(x: real)
    ensures UpdateRatingValid(x) ==> CreateRatingValid(x)
    ensures CreateRatingValid(7.5) && !UpdateRatingValid(7.5)
  {
    assert (7.5 * 10.0).Floor == 75;
  }

  // ---------------------------------------------------------------------
  // Listing query

  /** The `subscription_type` transform: a string is trimmed and
      upper-cased. */
  function NormalizeType(v: Option<Value>): (r: Option<Value>)
    ensures !IsText(v) ==> r == v
    ensures IsText(v) ==> r == Some(Str(Upper(Trim(v.value.s))))
  {
    match v
    case Some(Str(s)) => Some(Str(Upper(Trim(s))))
    case _ => v
  }

  /** `@IsEnum(moviesStatus)` after the transform. */
  predicate TypeValid(v: Option<Value>) {
    v.None? || v == Some(Str("FREE")) || v == Some(Str("PREMIUM"))
  }

  lemma UpperCharKeepsNonSpace(c: char)
    requires !IsSpace(c)
    ensures !IsSpace(UpperChar(c))
  {
  }

  /** Upper-casing a trimmed string leaves it trimmed. */
  lemma UpperKeepsTrimmed(t: string)
    requires IsTrimmed(t)
    ensures IsTrimmed(Upper(t))
  {
    var u := Upper(t);
    if |t| > 0 {
      assert u[0] == UpperChar(t[0]) && u[|u| - 1] == UpperChar(t[|t| - 1]);
      UpperCharKeepsNonSpace(t[0]);
      UpperCharKeepsNonSpace(t[|t| - 1]);
    }
  }

  lemma {:induction false} UpperIdempotent(s: string)
    ensures Upper(Upper(s)) == Upper(s)
  {
    assert forall i :: 0 <= i < |s| ==> UpperChar(UpperChar(s[i])) == UpperChar(s[i]);
  }

  /** The type transform is idempotent, so a value that has been through it
      is judged the same way again. */
  lemma NormalizeTypeIdempotent(v: Option<Value>)
    ensures NormalizeType(NormalizeType(v)) == NormalizeType(v)
  {
    if IsText(v) {
      var t := Trim(v.value.s);
      UpperKeepsTrimmed(t);
      UpperIdempotent(t);
    }
  }

  /** The `order` transform: a string is trimmed and lower-cased. */
  function NormalizeOrder(v: Option<Value>): (r: Option<Value>)
    ensures !IsText(v) ==> r == v
    ensures IsText(v) ==> r == Some(Str(Lower(Trim(v.value.s))))
  {
    match v
    case Some(Str(s)) => Some(Str(Lower(Trim(s))))
    case _ => v
  }

  /** `@IsIn(['asc', 'desc'])` after the transform. */
  predicate OrderValid(v: Option<Value>) {
    v.None? || v == Some(Str("asc")) || v == Some(Str("desc"))
  }

  /** `getAll` sorts ascending only for `asc`; anything else, including no
      order at all, sorts newest first. */
  function Ascending(order: Option<Value>): bool {
    order == Some(Str("asc"))
  }

  lemma {:induction false} LowerAppend(a: string, b: string)
    ensures Lower(a + b) == Lower(a) + Lower(b)
  {
    if |a| == 0 {
      assert a + b == b;
    } else {
      assert (a + b)[0] == a[0] && (a + b)[1..] == a[1..] + b;
      LowerAppend(a[1..], b);
    }
  }

  lemma {:induction false} LowerIdempotent(s: string)
    ensures Lower(Lower(s)) == Lower(s)
  {
    if |s| > 0 {
      var c := LowerChar(s[0]);
      LowerIdempotent(s[1..]);
      LowerAppend(c, Lower(s[1..]));
      if c == "i\U{0307}" {
        assert Lower(c) == LowerChar('i') + Lower("\U{0307}");
      } else {
        assert c == [c[0]];
        assert Lower(c) == LowerChar(c[0]) + Lower([]);
      }
    }
  }

  /** No character lower-cases to something that starts or ends with white
      space, unless it is white space itself. */
  lemma LowerCharKeepsNonSpace(c: char)
    requires !IsSpace(c)
    ensures |LowerChar(c)| > 0
    ensures !IsSpace(LowerChar(c)[0]) && !IsSpace(LowerChar(c)[|LowerChar(c)| - 1])
  {
  }

  /** Lower-casing a trimmed string leaves it trimmed: no character
      lower-cases to white space or starts or ends with it. */
  lemma LowerKeepsTrimmed(t: string)
    requires IsTrimmed(t)
    ensures IsTrimmed(Lower(t))
  {
    if |t| > 0 {
      var n := |t| - 1;
      var first := LowerChar(t[0]);
      var last := LowerChar(t[n]);
      LowerCharKeepsNonSpace(t[0]);
      LowerCharKeepsNonSpace(t[n]);
      assert Lower(t) == first + Lower(t[1..]);
      assert t == t[..n] + [t[n]];
      LowerAppend(t[..n], [t[n]]);
      assert Lower([t[n]]) == last + Lower([]);
      assert Lower(t) == Lower(t[..n]) + last;
      assert Lower(t)[0] == first[0] && Lower(t)[|Lower(t)| - 1] == last[|last| - 1];
    }
  }

  /** The order transform is idempotent, so a value that has been through
      it is judged the same way again. */
  lemma NormalizeOrderIdempotent(v: Option<Value>)
    ensures NormalizeOrder(NormalizeOrder(v)) == NormalizeOrder(v)
  {
    if IsText(v) {
      LowerKeepsTrimmed(Trim(v.value.s));
      LowerIdempotent(Trim(v.value.s));
    }
  }

  /** The page and limit the query accepts: whole numbers, a page of at
      least 1 and a limit from 1 to 100. */
  predicate PagingValid(page: Option<Value>, limit: Option<Value>) {
    && (page.Some? ==> page.value.Num? && page.value.n.Floor as real == page.value.n && page.value.n >= 1.0)
    && (limit.Some? ==> limit.value.Num? && limit.value.n.Floor as real == limit.value.n
                        && 1.0 <= limit.value.n <= 100.0)
  }

  /** A valid query's page and limit as integers, in the form the
      pagination arithmetic takes. */
  function PagingOf(page: Option<Value>, limit: Option<Value>): (r: (Option<int>, Option<int>))
    requires PagingValid(page, limit)
    ensures r.0.Some? <==> page.Some?
    ensures r.1.Some? <==> limit.Some?
    ensures r.0.Some? ==> r.0.value >= 1 && r.0.value as real == page.value.n
    ensures r.1.Some? ==> 1 <= r.1.value <= 100 && r.1.value as real == limit.value.n
  {
    (if page.Some? then Some(page.value.n.Floor) else None,
     if limit.Some? then Some(limit.value.n.Floor) else None)
  }

  // ---------------------------------------------------------------------
  // Username rule of the user update DTO

  /** `@IsOptional() @IsString() @MinLength(3)` on the transformed
      username: `@IsOptional` skips the other rules for an absent field and
      for `null`; otherwise the value must be a string of at least three
      characters. */
  predicate UsernameValid(v: Option<Value>) {
    v.None? || v.value.Null? || (v.value.Str? && |v.value.s| >= 3)
  }

  /** The update DTO accepts a username exactly when it is absent, `null`,
      blank (the transform then drops it), or a string of at least three
      characters after trimming; an accepted string is stored trimmed. */
  lemma UsernameAcceptedIsTrimmed(v: Option<Value>)
    ensures UsernameValid(ToOptionalTrimmedString(v)) <==>
      v.None? || v.value.Null? || (v.value.Str? && (AllSpace(v.value.s) || |Trim(v.value.s)| >= 3))
    ensures var u := ToOptionalTrimmedString(v);
      UsernameValid(u) && IsText(u) ==> IsTrimmed(u.value.s) && |u.value.s| >= 3
    ensures IsText(v) && AllSpace(v.value.s) ==> ToOptionalTrimmedString(v).None?
  {
  }
}
