/** The submitted receipt as the handlers hold it: every field is the text that was sent. */
module Receipts {

  datatype Item = Item(shortDescription: string, price: string)

  datatype Receipt = Receipt(
    retailer: string,
    purchaseDate: string,
    purchaseTime: string,
    items: seq<Item>,
    total: string)

  /** The check a submission must pass before it is stored: no text field left empty and at least one item. */
  predicate HasRequiredFields(r: Receipt)
    ensures HasRequiredFields(r) <==> r.items != [] && "" !in [r.retailer, r.purchaseDate, r.purchaseTime, r.total]
  {
    r.retailer != "" && r.purchaseDate != "" && r.purchaseTime != "" && |r.items| != 0 && r.total != ""
  }
}
