/**
 * The entities of GroupEats and its built-in sample data: the restaurant
 * catalog, the one sample group and the signed-in user.
 *
 * Distances and ratings are the source's one-decimal literals, kept as
 * `real`. The image URL, description and address of a restaurant are
 * display-only and are not part of the model.
 */
module Catalog {

  /** A restaurant of the catalog. Only `id` and `distance` (miles from the user) affect voting. */
  datatype Item = Item(
    id: int,
    name: string,
    cuisine: string,
    rating: real,
    priceRange: string,
    distance: real)

  datatype Member = Member(id: int, name: string, avatar: string)

  datatype Group = Group(id: int, name: string, members: seq<Member>)

  /** The catalog that the demo filters by distance, in its own order. */
  const SampleRestaurants: seq<Item> := [
    Item(1, "Tony's Italian Bistro", "Italian", 4.5, "$$", 0.8),
    Item(2, "Sakura Sushi Bar", "Japanese", 4.7, "$$$", 1.2),
    Item(3, "The Burger Joint", "American", 4.2, "$", 0.5),
    Item(4, "Spice Garden", "Indian", 4.6, "$$", 2.1),
    Item(5, "Le Petit Caf\U{E9}", "French", 4.4, "$$$", 1.8),
    Item(6, "Dragon Palace", "Chinese", 4.3, "$$", 1.5),
    Item(7, "Taco Libre", "Mexican", 4.1, "$", 0.7),
    Item(8, "Mediterranean Delight", "Mediterranean", 4.5, "$$", 1.9)
  ]

  const SampleGroup: Group := Group(1, "Friday Night Crew", [
    Member(1, "Alex", "A"),
    Member(2, "Jordan", "J"),
    Member(3, "Sam", "S"),
    Member(4, "Casey", "C")
  ])

  /** The user every vote is cast as. */
  const CurrentUser: Member := Member(1, "Alex", "A")

  /** The search radius in miles before the slider is moved. */
  const DefaultRadius: int := 5

  /** The slider's range, in whole miles. */
  const MinRadius: int := 1
  const MaxRadius: int := 25
}
