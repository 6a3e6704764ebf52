/** The exceptions that the RSA core raises, as values. */
module Results {

  /** One constructor per exception the source raises:
      - IndexError: a position outside the alphabet (and outside Python's
        negative indexing);
      - CharacterNotFound: a character that is not one of the 26 letters;
      - InverseNotFound: a negative exponent whose base has no inverse. */
  datatype Error = IndexError | CharacterNotFound | InverseNotFound

  datatype Result<T> = Ok(value: T) | Err(error: Error)
}
