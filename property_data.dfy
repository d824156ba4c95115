/** The property record exchanged with the listing service. */
module PropertyData {

  /** One real-estate listing. `id` is assigned by the server; the
      price is a whole number of currency units. The latitude and
      longitude of the record only position its map marker and are
      not part of this model. */
  datatype Property = Property(
    id: string,
    title: string,
    description: string,
    price: int,
    imageUrl: string)
}
