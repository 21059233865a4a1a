/** A song is a plain value: two songs are the same song exactly when their
    titles and their authors are equal. */
module Songs {

  datatype Song = Song(title: string, author: string)

}
