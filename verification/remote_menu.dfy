/** `fetchMenuFromServer` after the network round trip: the shape check on the
    parsed payload and the normalisation of each record into a `MenuItem`. The
    request itself, `response.json()` and the endpoint are outside the model; the
    parsed body is an input. */
module RemoteMenu {
  import opened Seqs
  import opened MenuStore

  /** A JavaScript value that may be `undefined` or `null`; optional chaining
      (`?.`) and nullish coalescing (`??`) treat the two alike. */
  datatype Nullish<T> = Undefined | Null | Value(v: T)

  /** `x ?? fallback`. */
  function Coalesce<T>(x: Nullish<T>, fallback: T): T {
    if x.Value? then x.v else fallback
  }

  /** One element of the payload's `menu` array, with each field as the JSON held
      it. `price` is the text `parseFloat` reads. */
  datatype RawItem = RawItem(
    name: Nullish<string>,
    description: Nullish<string>,
    price: Nullish<string>,
    image: Nullish<string>,
    category: Nullish<string>)

  /** The payload's `menu` member: missing or `null`, present but not an array
      (a string, an object, `false`, ...), or an array of elements that may
      themselves be `null`. */
  datatype MenuMember = MissingMenu | NotAnArray | MenuArray(elements: seq<Nullish<RawItem>>)

  /** What the request produced: no parsed object (the request or `response.json()`
      threw, or the body parsed to `null`, so that reading `data.menu` throws), or
      a parsed object with its `menu` member. */
  datatype Response = Unreachable | Payload(menu: MenuMember)

  /** Why `fetchMenuFromServer` threw. */
  datatype FetchError = NetworkError | InvalidMenuFormat

  /** `item?.field`: undefined when the element itself is nullish. */
  function Member<T>(element: Nullish<RawItem>, field: RawItem -> Nullish<T>): Nullish<T> {
    match element
    case Value(raw) => field(raw)
    case _ => Undefined
  }

  /** `parseFloat(x)`: `undefined` and `null` read as the texts "undefined" and
      "null", which hold no number, giving NaN; present text goes to `parseFloat`,
      a parameter of the model because floating-point parsing is not modelled. */
  function ParseFloat(x: Nullish<string>, parseFloat: string -> Price): Price {
    match x
    case Value(text) => parseFloat(text)
    case _ => NaN
  }

  /** The string a normalised field takes: the JSON value when present, `''` otherwise. */
  function TextOr(element: Nullish<RawItem>, field: RawItem -> Nullish<string>): (r: string)
    ensures element.Value? && field(element.v).Value? ==> r == field(element.v).v
    ensures element.Value? && !field(element.v).Value? ==> r == ""
    ensures !element.Value? ==> r == ""
  {
    Coalesce(Member(element, field), "")
  }

  /** The record normalisation inside `fetchMenuFromServer`: every text field falls
      back to `''`; the price is `parseFloat(item?.price) ?? 0`. */
  function NormalizeItem(element: Nullish<RawItem>, parseFloat: string -> Price): (item: MenuItem)
    ensures element.Value? ==>
      && (element.v.name.Value? ==> item.name == element.v.name.v)
      && (element.v.description.Value? ==> item.description == element.v.description.v)
      && (element.v.image.Value? ==> item.image == element.v.image.v)
      && (element.v.category.Value? ==> item.category == element.v.category.v)
    ensures !element.Value? ==> item.name == item.description == item.image == item.category == ""
    ensures element.Value? && !element.v.name.Value? ==> item.name == ""
    ensures element.Value? && !element.v.description.Value? ==> item.description == ""
    ensures element.Value? && !element.v.image.Value? ==> item.image == ""
    ensures element.Value? && !element.v.category.Value? ==> item.category == ""
  {
    MenuItem(
      TextOr(element, (r: RawItem) => r.name),
      TextOr(element, (r: RawItem) => r.description),
      Coalesce(Value(ParseFloat(Member(element, (r: RawItem) => r.price), parseFloat)), Number(0.0)),
      TextOr(element, (r: RawItem) => r.image),
      TextOr(element, (r: RawItem) => r.category))
  }

  /** The `?? 0` after `parseFloat` never applies: `parseFloat` returns a number
      (possibly NaN), never `undefined` or `null`. So the price is exactly what
      `parseFloat` gave, and a record without a price gets NaN, not 0. */
  lemma PriceFallbackNeverApplies(element: Nullish<RawItem>, parseFloat: string -> Price)
    ensures element.Value? && element.v.price.Value? ==>
      NormalizeItem(element, parseFloat).price == parseFloat(element.v.price.v)
    ensures !(element.Value? && element.v.price.Value?) ==>
      NormalizeItem(element, parseFloat).price == NaN != Number(0.0)
  {
  }

  /** `fetchMenuFromServer` on the parsed response: a payload whose `menu` is
      missing or not an array is rejected; otherwise every element is normalised,
      keeping length and order. */
  function FetchMenuFromServer(response: Response, parseFloat: string -> Price): (r: Result<seq<MenuItem>, FetchError>)
    ensures response.Unreachable? ==> r == Failure(NetworkError)
    ensures response.Payload? && !response.menu.MenuArray? ==> r == Failure(InvalidMenuFormat)
    ensures response.Payload? && response.menu.MenuArray? ==>
      && r.Success?
      && |r.value| == |response.menu.elements|
      && forall i | 0 <= i < |r.value| :: r.value[i] == NormalizeItem(response.menu.elements[i], parseFloat)
  {
    match response
    case Unreachable => Failure(NetworkError)
    case Payload(menu) =>
      match menu
      case MenuArray(elements) =>
        Success(seq(|elements|, i requires 0 <= i < |elements| => NormalizeItem(elements[i], parseFloat)))
      case _ => Failure(InvalidMenuFormat)
  }
}
