/** Attribute names used when building search statements (`Consts.java`). */
module Consts {
  const TITLE: string := "title"
  const DESCRIPTION: string := "description"
  /** The SQL column name, not the entity attribute `publicationDate`. */
  const PUBLICATION_DATE: string := "publication_date"
  const LANGUAGE: string := "language"
  const ISBN: string := "isbn"
  const NUMBER_PAGES: string := "numberPages"
  const PRICE: string := "price"
  const FK_ID_CATEGORY: string := "categoryId"
  const FK_ID_AUTHOR: string := "authorId"
  const IMAGE: string := "image"
  const REVIEW_SCORE: string := "reviewScore"
  const STATUS: string := "status"
}
