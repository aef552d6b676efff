/** Classification of one product card, after the site's selectors have been
    evaluated against the page. */
module Cards {
  import opened Wrappers
  import opened Sanitizer

  /** The status button of a card: whether it carries a `disabled` attribute,
      and its visible text. */
  datatype Button = Button(disabled: bool, text: string)

  /** A product card once the name and status-button selectors have been
      applied to it: the name element's text (`get_text(strip=True)`) when the
      name selector matched, and the button when the button selector matched. */
  datatype Card = Card(nameText: Option<string>, button: Option<Button>)

  /** A site's selector template. The card, name and button selectors are
      consumed when cards are extracted; `soldOutText` is configured but
      nothing reads it. */
  datatype Selectors = Selectors(
    productCard: string,
    productName: string,
    statusButton: string,
    soldOutText: string)

  /** What the classifier makes of a card:
      - `NoName`: no name element, returned by the source as `(None, True)`;
      - `NoButton`: a name but no status button, `(None, None)`;
      - `Product`: the sanitised name and whether the item is sold out. */
  datatype Verdict = NoName | NoButton | Product(name: string, soldOut: bool)

  /** `check_stock`: a card is sold out exactly when its button is disabled;
      its name is always a sanitised one, free of tags and of surrounding
      whitespace. */
  function CheckStock(card: Card, selectors: Selectors): (v: Verdict)
    ensures v.NoName? <==> card.nameText.None?
    ensures v.NoButton? <==> card.nameText.Some? && card.button.None?
    ensures v.Product? <==> card.nameText.Some? && card.button.Some?
    ensures v.Product? ==> v.soldOut == card.button.value.disabled
    ensures v.Product? ==> v.name == Sanitize(card.nameText.value)
    ensures v.Product? ==> !HasTag(v.name) && Trimmed(v.name)
  {
    match card.nameText
    case None => NoName
    case Some(text) =>
      var name := Sanitize(text);
      match card.button
      case None => NoButton
      case Some(b) => Product(name, b.disabled)
  }

  /** Markup around the product name plays no part: a plain name wrapped in
      an element's tags classifies exactly as the bare name. */
  lemma MarkupIgnored(element: string, plain: string, button: Button, selectors: Selectors)
    requires |element| > 0 && '>' !in element
    requires '<' !in plain && Trimmed(plain)
    ensures CheckStock(Card(Some("<" + element + ">" + plain + "</" + element + ">"), Some(button)), selectors)
         == CheckStock(Card(Some(plain), Some(button)), selectors)
         == Product(plain, button.disabled)
  {
    SanitizeWrapped(element, plain);
    SanitizePlainText(plain);
    StripKeepsTrimmed(plain);
  }

  /** The button's wording plays no part: a button that reads as the
      configured sold-out text but is enabled still means "in stock". */
  lemma SoldOutTextIgnored(text: string, selectors: Selectors, wording: string)
    ensures CheckStock(Card(Some(text), Some(Button(false, selectors.soldOutText))), selectors)
         == CheckStock(Card(Some(text), Some(Button(false, wording))), selectors)
    ensures !CheckStock(Card(Some(text), Some(Button(false, selectors.soldOutText))), selectors).soldOut
  {
  }
}
