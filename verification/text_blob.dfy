/**
 * `TextBlob`: the sentiment scores TextBlob reports, shared by the enhancer
 * and the analyzer. TextBlob itself is a foreign model.
 */
module TextBlob {
  /** TextBlob's polarity and subjectivity. */
  datatype Scores = Scores(polarity: real, subjectivity: real)
}
