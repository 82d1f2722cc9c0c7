/**
 * Typed views of the records the analytics and the cross-reference filters
 * read: a claim or revert after its loader accepted it, a pharmacy row's join
 * columns.
 */
module Records {
  import opened Timestamps

  /** A claim; `quantity` holds the integral value the schema check admitted, of either sign. */
  datatype Claim = Claim(id: string, ndc: string, npi: string, quantity: int, price: real, timestamp: DateTime)

  datatype Revert = Revert(id: string, claimId: string, timestamp: DateTime)

  /** The two columns of a pharmacy row the pipeline reads. */
  datatype Pharmacy = Pharmacy(npi: string, chain: string)

}
