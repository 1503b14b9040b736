/** The records of models/models.py. */
module Models {

  /** A `created_at` value: a point in time, in the clock's own units. */
  type Timestamp = int

  /** `OCRResultBase`: what a client submits for storage. */
  datatype OcrResultBase = OcrResultBase(filename: string, extractedText: string)

  /** `OCRResultInDB`: a stored row of the results table. Rows read back from
      the database always carry their `id`, so it is not optional here. */
  datatype OcrResultInDb = OcrResultInDb(id: int, filename: string, extractedText: string, createdAt: Timestamp)
}
