/** Small value types shared by every component: an optional value and the
    two display languages of the application. */
module Common {

  datatype Option<+T> = None | Some(value: T)

  /** The application's display language ('en' | 'bn'). */
  datatype Language = En | Bn

  /** Every bilingual text in the components is `language === 'bn' ? bn : en`. */
  function Pick<T>(lang: Language, en: T, bn: T): (r: T)
    ensures lang == Bn ==> r == bn
    ensures lang == En ==> r == en
  {
    if lang == Bn then bn else en
  }
}
