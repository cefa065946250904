/**
  The decision taken when an action button's modal closes: the listing is
  refreshed exactly when the `refresh` data value of the first `button`
  nested in the clicked link is the number 1, compared with `===`.
 */
module Refresh {
  import opened JsValues

  /** A `button` element nested in the clicked link, seen through its
      jQuery data store (which holds the parsed `data-*` attributes). */
  datatype Button = Button(data: map<string, JsValue>)

  /** The data key the close callback reads. */
  const RefreshKey: string := "refresh"

  /** `$('button', $a).data(key)`: the value stored under `key` on the first
      nested button, and `undefined` when there is no nested button or it
      has no such value. */
  function DataOf(buttons: seq<Button>, key: string): (v: JsValue)
    ensures |buttons| > 0 && key in buttons[0].data ==> v == buttons[0].data[key]
    ensures v != Undefined ==> |buttons| > 0 && key in buttons[0].data
  {
    if |buttons| == 0 || key !in buttons[0].data then Undefined
    else buttons[0].data[key]
  }

  /** The close callback's test `refresh === 1`. */
  function ShouldRefresh(buttons: seq<Button>): (r: bool)
    ensures r <==> |buttons| > 0 && RefreshKey in buttons[0].data
                   && buttons[0].data[RefreshKey] == Number(1.0)
  {
    StrictEquals(DataOf(buttons, RefreshKey), Number(1.0))
  }

  /** On a single button, only the number 1 requests a refresh. */
  lemma RefreshIffNumberOne(v: JsValue)
    ensures ShouldRefresh([Button(map[RefreshKey := v])]) <==> v == Number(1.0)
  {
  }

  /** Values that look like 1 but are not the number 1 do not refresh: the
      string "1", the boolean true (which `==` would equate with 1), and
      the numbers 0 and 1.5. */
  lemma LookalikesDoNotRefresh()
    ensures !ShouldRefresh([Button(map[RefreshKey := String("1")])])
    ensures !ShouldRefresh([Button(map[RefreshKey := Boolean(true)])])
    ensures !ShouldRefresh([Button(map[RefreshKey := Number(0.0)])])
    ensures !ShouldRefresh([Button(map[RefreshKey := Number(1.5)])])
  {
  }

  /** A missing value does not refresh: no nested button, a button without
      the value, or a value stored as `undefined` or `null`. */
  lemma MissingValueDoesNotRefresh(b: Button)
    requires RefreshKey !in b.data
    ensures !ShouldRefresh([])
    ensures !ShouldRefresh([b])
    ensures !ShouldRefresh([Button(map[RefreshKey := Undefined])])
    ensures !ShouldRefresh([Button(map[RefreshKey := Null])])
  {
  }

  /** Only the first nested button is read: a later button's value is
      ignored whatever it is. */
  lemma OnlyFirstButtonCounts(first: Button, rest: seq<Button>)
    ensures ShouldRefresh([first] + rest) == ShouldRefresh([first])
  {
  }
}
