/** The song record of src/internal/model/song.go. */
module Model {
  /** One row of the songs table. `id` is the primary key the database
      assigns; the four text fields are stored in the columns
      group_name, song, release_date and lyrics. */
  datatype Song = Song(id: nat, groupName: string, song: string, releaseDate: string, lyrics: string)
}
